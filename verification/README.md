# melonDS core, modelled in Dafny

A model of the parts of the emulator that have the most state: the JIT's translation cache and
its compiler passes, the mapping and flat copies of video memory, the DSi AES engine, the Action
Replay machine and its file format, the frame stream, register banking, DMA and CRC-32. Code that
updates things in place is a class or a method with loops, proved against functions and predicates
that say what it is for. What each part promises is proved for every input or every run. Where the
code does not keep a promise there is a concrete run that breaks it and the exact condition under
which it is kept.

`dafny verify dfyconfig.toml` checks the whole project.

## Parts

- **Translation cache** (`CodeCoverage.dfy`, `JitCache.dfy`, `FetchLoop.dfy`, `Arm7.dfy`, `Processor.dfy`,
  `Execution.dfy`, `RestoreSafety.dfy`, `TableSafety.dfy`). A block is reachable through the block
  map and the fast slots, and is listed by the 512-byte ranges it was compiled from, whose bitmaps flag 16-byte
  granules. `Cache.Valid` ties the five structures together; `Cache.Coherent` says that every
  reachable block was compiled from the bytes in memory now. Guest stores keep coherence
  unconditionally. Restoring retired blocks does not: the comparison looks at the fetched values, the
  start address and the granules, but not at the addresses and widths of the single fetches nor at
  the instruction set. `FetchLoop` models the loop that decides what a compilation reads, in either
  state: sequential fetches, literals, merged long branches, static branches, link returns and
  followed conditional branches; `Arm7` decodes both instruction sets of the ARM7 for it.
  `Processor` reads instruction words by itself, the decoder agrees with it, and `Execution` shows that
  what a compilation reads is what such a processor executes and loads, up to an end stated exactly. Two kinds of
  run hand out a stale translation, at any address: a branch that is taken the first time and not the
  second (`BranchBothWays`), and an address compiled as ARM and then as Thumb code (`MixedSets`).
  `RestoreSafety.CoherentExactly` shows that there are no others: all runs of a program are coherent
  if and only if no conditional branch can be followed and no address is compiled in both states.
  `TableSafety.TablesFitExactly` says with which settings the fixed tables of a compilation, which
  are filled without a test, are large enough for all code.
- **Register allocation** (`RegisterCache.dfy`). Instructions are arbitrary functions that respect
  their `Info` sets. The emitted loads and saves are run on a machine with native registers and
  compared with executing the instructions one after the other on memory.
- **Dead-flag elimination** (`FlagLiveness.dfy`). The incremental flooding is proved equal to
  classic backward liveness, sound for arbitrary junk in the flags left out, and minimal.
- **Idle loops** (`IdleLoop.dfy`, `IdleExact.dfy`). `IsIdleLoop` takes a conditional write for a write and ignores
  flags. Both matter: `ConditionalLoopDoesNotIdle` and `FlagLoopDoesNotIdle` are accepted loops
  whose second iteration differs from the first. `RepeatsExactly` gives the exact discipline under
  which all reads repeat, `IdleExact.IdlesExactly` the exact one under which state and branch do, and
  `AcceptedLoopIdles` what an accepted loop needs besides.
- **Video memory** (`VramMap.dfy`, `VramFlat.dfy`). `Covers` says, from a control byte alone, where a
  bank is visible, and `SeenExactly` gives the addresses; all maps are proved to be that function of
  the nine bytes at any time, and every bit that is read or copied is traced to the banks. The flat
  copies are refreshed from dirty bits that all tracking sets share, so one set can clear what
  another has not seen: `StaleCopy` is such a run (bank A used as background, changed, lent to the
  textures and given back) and `StaysFreshExactly` the exact condition on a clearing. Slow reads of
  the object extended palette test the bits of banks E and F for banks F and G;
  `ShownIsOrExactly` says exactly when the result is nevertheless the or of the mapped banks.
- **AES engine** (`Fifo.dfy`, `Ccm.dfy`, `AesEngine.dfy`, `CounterMode.dfy`). The cipher is an arbitrary function on
  blocks. What a transfer puts out is proved independent of how FIFO accesses interleave, equal to
  RFC 3610 for CCM encryption and to the encrypted counters for counter mode, and undone by the opposite mode, with the MAC reported as correct.
- **Cheat engine** (`CheatEngine.dfy`, `CheatOpcodes.dfy`, `CheatFile.dfy`, `CheatLines.dfy`). Every run ends, with the bus as an arbitrary
  oracle. A failed test skips up to the first ENDIF, even that of a nested test
  (`NestedIfLeaks`); `FailedTestExactly` says when it skips to its own. `CheatOpcodes` says in
  numbers what each opcode does. Text files are parsed with the conversions of `sscanf` that the code
  uses, and `CheatLines` gives the grammar of what they accept.
- **Stream** (`Qoi.dfy`, `QoiFormat.dfy`, `FrameAssembler.dfy`). The receiver's decoder equals the expansion of the
  chunks of the QOI Image Format Specification 1.0 on all inputs and inverts the sender's encoder;
  reassembly is safe and live over a network that loses, repeats and reorders.
- **Smaller cores** (`Banking.dfy`, `Dma.dfy`, `Crc32.dfy`). Swapped registers against a register file
  indexed by mode (ARM DDI 0100, sections A2.4 and A2.6), sliced transfers against uninterrupted
  ones, the table-driven CRC against the bit-serial one of RFC 1952, section 8, and that
  against division of polynomials.

## Where comments and code disagree

The model follows the code.

- `InvalidateByAddr` (switch/src/ARMJIT.cpp:968) declares a second `mask` that hides the granule of
  the written address, so every block of the range is dropped, not only those that cover the granule.
- Writing bank C's or D's control byte with the value it already has clears its `VRAMSTAT` bit, also
  while the ARM7 owns the bank (switch/src/GPU.cpp:602-612).
- `A_STM` of the ARM7 stores the running address for a base register that is not the lowest of the
  list, without writeback as well (switch/src/ARMInterpreter_LoadStore.cpp:506-512). For stores of
  the user bank `StmStoresUserExactly` says when that is wrong, `WrongBaseStored` is an instruction.
- A merged Thumb long branch never counts as static: the bit that is to tell its exchanging form is
  always set in the first half (switch/src/ARMJIT.cpp:391). Links are followed in ARM state only.
- The tables of a compilation have `JIT_MaxBlockSize` entries, as if each instruction needed one; with
  literals an instruction can need two (switch/src/ARMJIT.cpp:618-620, 758-764).
- The test for a jump back looks at the branch itself, not at the instructions before it
  (switch/src/ARMJIT.cpp:798-805).

## Model

| member | source | states |
|---|---|---|
| CodeCoverage.BuildCoverage | switch/src/ARMJIT.cpp:660-678 | the table filled while fetching, swaps of ranges included, has each 512-byte range once, bit g of range r set exactly if something was read in the sixteen bytes from 512 r + 16 g on, and as many entries as ranges were read |
| CodeCoverage.CoverExact | switch/src/ARMJIT.cpp:746-768 | the same for literal reads interleaved with instruction fetches in any order, and no mask is empty |
| JitCache.Cache.PageContainsCode | switch/src/ARMJIT_Internal.h:221-229 | true exactly if one of the page's eight ranges lists a block |
| JitCache.Cache.SetCodeProtection | switch/src/ARMJIT.cpp:936-937 | can only be called to protect an unprotected page or unprotect a protected one, so calls for a page alternate |
| JitCache.Cache.Enlist | switch/src/ARMJIT.cpp:936-942 | a block joins a range's list; a page stays protected exactly while one of its ranges lists a block |
| JitCache.Cache.Unlist | switch/src/ARMJIT.cpp:986-992 | a block leaves a range's list; the page is unprotected exactly when that was its last block |
| JitCache.SwapRemoveContents | switch/src/ARMJIT_Internal.h:133-142 | removal by moving the last element keeps all other elements, each once |
| JitCache.Cache.RetireJitBlock | switch/src/ARMJIT.cpp:559-571 | the pool holds one block for each instruction hash, the newest |
| JitCache.Cache.InvalidateByAddr | switch/src/ARMJIT.cpp:954-1046 | no remaining block covers the range; blocks of other ranges stay; all five structures agree; for each dropped block the pool holds it or another one that was live and has the same hash, unless it loaded a literal from this address |
| JitCache.Cache.GuestWrite | switch/src/ARMJIT.cpp:1059-1065 | after a store no remaining block read a byte of the written granule, and a coherent cache stays coherent with the new memory |
| JitCache.Cache.LookUpBlock | switch/src/ARMJIT.cpp:1067-1073 | exactly when the slot is this address's, the entry of its live block is returned, and in a coherent cache it was compiled from the bytes in memory |
| JitCache.Cache.ResetBlockCache | switch/src/ARMJIT.cpp:1114-1159 | clearing only the ranges of live blocks leaves no list, bitmap, slot, pool entry or protected page |
| JitCache.Cache.TakeCandidate | switch/src/ARMJIT.cpp:864-892 | a retired block is handed out exactly if hash, start address, literal hash, ranges and masks all match; it leaves the pool either way |
| JitCache.Cache.CompileBlock | switch/src/ARMJIT.cpp:590-951 | the address is reachable afterwards in map and slot, by the existing, the restored or a new block; the cache stays valid, and coherent unless a restored block read bytes that were not among those just fetched |
| JitCache.RestoreSafeExactly | switch/src/ARMJIT.cpp:872-892 | a restored block is right for every memory that returns what was just fetched if and only if all the bytes it was built from, which the code does not keep, are among them |
| JitCache.DeterminedRestoreIsSafe | switch/src/ARMJIT.cpp:872-892 | when the fetched instruction values determine the addresses, whatever passes the comparison was built from the very same reads |
| JitCache.SafeRunIsCoherent | switch/src/ARMJIT.cpp:573-1159 | over every run of compilations, stores and resets in which each restored block was built from bytes just fetched, all reachable blocks agree with memory after every step |
| JitCache.DeterminedRunIsSafe | switch/src/ARMJIT.cpp:573-1159 | with determined addresses every run is such a run |
| JitCache.Run | switch/src/ARMJIT.cpp:573-1159 | the cache with its five structures makes a run of that kind of any sequence of steps, keeps its structures in agreement, and is coherent if the run is safe |
| FetchLoop.HandleBranch | switch/src/ARMJIT.cpp:782-851 | the nested tests follow a branch exactly if it is static, was taken, is no jump back or possible idle loop and the block has room, and go on behind a conditional branch that was not taken |
| FetchLoop.FetchOne | switch/src/ARMJIT.cpp:643-855 | one turn: link lost, literal read, long branch merged, branch handled |
| FetchLoop.FetchBlock | switch/src/ARMJIT.cpp:628-859 | the loop ends, although merging takes its index back, and reads the specified places in order |
| Execution.FetchExecuted | switch/src/ARMJIT.cpp:352-859 | for every memory and every execution of a processor that reads the instruction words by itself, the places read are those its instructions are fetched from and the words they load, calls putting the address plus 4 into R14 and returns going there, up to the first instruction that stops it, fills the block, waits, or may branch without a branch that can be followed |
| Execution.TurnEnds | switch/src/ARMJIT.cpp:782-858 | behind an instruction that may write R15 the block goes on exactly if, with branches optimised, it was taken to a static target that is neither itself nor in the straight piece before a conditional one, or was not taken although it could |
| Execution.ReturnsBehindCall | switch/src/ARMJIT.cpp:420-436 | a taken call and the first return after it, R14 unwritten in between, lead to the address of the call plus 4 |
| Processor.DecodeAgrees | switch/src/ARM_InstrInfo.cpp:315-560 | targets, links and conditions, and which instructions may write R15 or R14, are those of the instruction words of both sets, read as numbers |
| Processor.LoadAgrees | switch/src/ARMJIT.cpp:352-382 | so are the distances of loads relative to the program counter |
| FetchLoop.FrontEndFits | switch/src/ARMJIT.cpp:659-678 | no fetch or literal straddles two granules, for every decoder with aligned branches |
| FetchLoop.SameValuesSamePlaces | switch/src/ARMJIT.cpp:643-859 | two compilations from one address that fetch the same values read the same places, unless a conditional branch was followed in one only |
| FetchLoop.SteadyIsDetermined | switch/src/ARMJIT.cpp:573-859 | for every processor and decoder, when each address is compiled in one state only, and branches cannot be followed or go the same way each time, the values determine the addresses |
| RestoreSafety.SteadyIsCoherent | switch/src/ARMJIT.cpp:573-1159 | all runs of such a program are coherent after every step |
| RestoreSafety.EveryRunIsStale | switch/src/ARMJIT.cpp:864-892 | compiling, overwriting what was fetched, and compiling what looks the same always ends with a reachable block that memory no longer holds |
| RestoreSafety.MakeStale | switch/src/ARMJIT.cpp:573-1065 | the cache itself makes that run |
| RestoreSafety.MixedSetsAreMistaken | switch/src/ARMJIT.cpp:575-886 | with all settings and at every address: the word 0x0000F800 as an ARM instruction and its low half as a Thumb instruction look the same |
| RestoreSafety.BranchIsMistaken | switch/src/ARMJIT.cpp:782-886 | with branches optimised, in either state and at every address: BEQ taken and not taken look the same |
| RestoreSafety.CoherentExactly | switch/src/ARMJIT.cpp:573-1159 | whatever addresses ARM7 code is compiled at in which states, all its runs are coherent if and only if branches are not optimised or blocks have one instruction, and no address is compiled in both states |
| Arm7.Arm7IsValid | switch/src/ARM_InstrInfo.cpp:315-560 | the targets of all branches of both instruction sets are aligned, and main memory keeps positions in granules |
| TableSafety.TablesFitExactly | switch/src/ARMJIT.cpp:618-764 | the tables of ranges and masks are large enough for every compilation of ARM7 code if and only if literals are not optimised, or branches are not and a block may have four Thumb or eighteen ARM instructions |
| TableSafety.ValueTablesFit | switch/src/ARMJIT.cpp:623-628 | the tables of instruction and literal values always are, merged long branches included |
| TableSafety.ThumbOverflow | switch/src/ARMJIT.cpp:660-768 | two loads across the end of a range read four ranges |
| TableSafety.ArmOverflow | switch/src/ARMJIT.cpp:660-768 | so do up to seventeen ARM loads with eighteen |
| TableSafety.LeapOverflow | switch/src/ARMJIT.cpp:660-827 | with branches followed, loads and far branches by turns need more entries than a block of any length has instructions |
| TableSafety.StraightBound | switch/src/ARMJIT.cpp:352-382 | straight Thumb code and its literals lie in four ranges, ARM code in eighteen |
| RegisterCache.RegisterCache.UnloadRegister | switch/src/ARMJIT_RegisterCache.h:50-61 | the mapping stays injective and consistent with the three masks, and the code emitted so far still simulates direct execution |
| RegisterCache.RegisterCache.LoadRegister | switch/src/ARMJIT_RegisterCache.h:63-84 | with a free native register the search succeeds; a register loaded without its value is the only new unknown |
| RegisterCache.RegisterCache.FindFree | switch/src/ARMJIT_RegisterCache.h:66-83 | the search never reaches abort while fewer guest registers are loaded than native ones exist |
| RegisterCache.RegisterCache.PrepareExit | switch/src/ARMJIT_RegisterCache.h:102-107 | the emitted saves cover exactly the dirty registers, from where they live |
| RegisterCache.SaveAllHolds | switch/src/ARMJIT_RegisterCache.h:102-107 | after those saves memory is up to date for every register saved, and nothing else changed |
| RegisterCache.RegisterCache.Flush | switch/src/ARMJIT_RegisterCache.h:109-115 | nothing is loaded or dirty afterwards and memory simulates direct execution |
| RegisterCache.RegisterCache.ScanUses | switch/src/ARMJIT_RegisterCache.h:128-139 | finds exactly the registers used from here on, and how many instructions strictly need each |
| RegisterCache.FutureNeededExactly | switch/src/ARMJIT_RegisterCache.h:128-131 | a register counts as used from here on exactly if some instruction from here on may write it, or reads it and it is not R15 |
| RegisterCache.RankIsCount | switch/src/ARMJIT_RegisterCache.h:132-134 | its rank is the number of those instructions that strictly need it |
| RegisterCache.RegisterCache.ChooseVictim | switch/src/ARMJIT_RegisterCache.h:154-165 | the search always finds a victim, the least needed of the loaded registers the instruction can spare |
| RegisterCache.RegisterCache.MakeRoom | switch/src/ARMJIT_RegisterCache.h:152-169 | eviction ends with room for all registers still to be loaded, takes no more than needed, none of the necessary ones, and the least needed first |
| RegisterCache.RegisterCache.Prepare | switch/src/ARMJIT_RegisterCache.h:117-195 | every strictly needed register is native, nothing that is never used again stays, optional ones fill what is left, every loaded destination is dirty, and only destinations an unconditional instruction overwrites without reading may hold junk |
| RegisterCache.RegisterCache.CompileInstr | switch/src/ARMJIT_A64/ARMJIT_Compiler.cpp:771-890 | one more instruction, compiled or interpreted after a flush, keeps the emitted code simulating direct execution without unknowns |
| RegisterCache.CompileBlock | switch/src/ARMJIT_A64/ARMJIT_Compiler.cpp:764-900 | from every machine the emitted code leaves R0-R14 in memory, the rest of the state and the exit taken as direct execution does, for every block whose necessary registers fit the native ones |
| FlagLiveness.FloodFillSetFlags | switch/src/ARMJIT.cpp:335-351 | the in-place backward loop, early return included, adds the specified marks |
| FlagLiveness.FloodAt | switch/src/ARMJIT.cpp:335-351 | an instruction is marked with a flag if and only if it may write it, it is wanted at the start, and nothing in between surely writes it |
| FlagLiveness.ComputeSetFlags | switch/src/ARMJIT.cpp:855-858 | flooding once for each fetched instruction and once at the end computes the specified sets |
| FlagLiveness.SetFlagsIsLiveness | switch/src/ARMJIT.cpp:855-913 | the sets computed forwards are exactly what an instruction may write among the flags live after it |
| FlagLiveness.EliminationPreservesMeaning | switch/src/ARMJIT.cpp:855-913 | with arbitrary values in all flags not computed, the block is left at the same instruction, in the same state, with all four flags right |
| FlagLiveness.EveryMarkedFlagIsNeeded | switch/src/ARMJIT.cpp:855-913 | any choice of sets that misses a marked flag breaks some block with the same Info sets |
| IdleLoop.IsIdleLoop | switch/src/ARMJIT.cpp:441-470 | accepts exactly the bodies without stores, system accesses or inner branches in which no register is written that was read before the body wrote it |
| IdleLoop.AcceptsExactly | switch/src/ARMJIT.cpp:447-468 | the running masks decide just that, in both directions |
| IdleLoop.SecondIterationRepeats | switch/src/ARMJIT.cpp:443-467 | under that discipline over registers and flags the second iteration reads, does and decides what the first did |
| IdleLoop.RepeatsExactly | switch/src/ARMJIT.cpp:443-467 | every instruction reads the same in both iterations, for all meanings its Info allows, if and only if the discipline holds with only sure writes counted |
| IdleExact.IdlesExactly | switch/src/ARMJIT.cpp:443-467 | the second iteration leaves the state and branches like the first, for all meanings its Info allows, if and only if no instruction that reads what one iteration hands on can show in the state or the branch |
| IdleExact.DeadReadIdles | switch/src/ARMJIT.cpp:461-467 | a body that idles although it breaks the discipline on reads |
| IdleLoop.IdleForever | switch/src/ARMJIT.cpp:443-467 | then any number of iterations equals one, and the back branch stays as it was |
| IdleLoop.AcceptedLoopIdles | switch/src/ARMJIT.cpp:441-470 | an accepted body idles if its instructions are unconditional and its flags obey the discipline too |
| IdleLoop.ConditionalLoopDoesNotIdle | switch/src/ARMJIT.cpp:461-467 | an accepted loop with a conditional write that counts up a register on every iteration |
| IdleLoop.FlagLoopDoesNotIdle | switch/src/ARMJIT.cpp:461-467 | an accepted loop of ADC, CMP and BNE that hands the carry from one iteration to the next |
| VramMap.GetUniqueBankPtr | switch/src/GPU.cpp:529-534 | there is a pointer exactly if one single bank is mapped, and it points into that bank, wrapped to its size |
| VramMap.SeenExactly | switch/src/GPU.cpp:544-972 | for each control byte, a bank is seen at an address, and with which of its bytes, exactly as the table of addresses and offsets says |
| VramMap.OneRegion | switch/src/GPU.cpp:544-972 | no control byte makes a bank visible in two regions |
| VramMap.AtMostOneRegion | switch/src/GPU.cpp:544-972 | after any writes each bank is visible in at most one region |
| VramMap.ByteChanged | switch/src/GPU.cpp:544-600 | switching a bank off for the old byte and on for the new one makes all maps the function of the new bytes, overlapping banks included |
| VramMap.Vram.constructor | switch/src/GPU.cpp:203-255 | after a reset maps, pointers and bytes agree |
| VramMap.Vram.SwitchAB | switch/src/GPU.cpp:557-599 | the cases for an old or new byte change exactly the entries in which the byte shows the bank, and keep the pointers |
| VramMap.Vram.SwitchCD | switch/src/GPU.cpp:617-683 | the same for C and D, with all granules dirty and the status bit set exactly when the byte hands the bank to the ARM7 |
| VramMap.Vram.SwitchE | switch/src/GPU.cpp:697-745 | the same for bank E |
| VramMap.Vram.SwitchFG | switch/src/GPU.cpp:760-843 | the same for F and G with their doubled images |
| VramMap.Vram.SwitchH | switch/src/GPU.cpp:857-903 | the same for bank H |
| VramMap.Vram.SwitchI | switch/src/GPU.cpp:917-971 | the same for bank I |
| VramMap.Vram.MapVRAMAB | switch/src/GPU.cpp:544-600 | a write replaces one of the nine bytes and everything remains a function of the bytes alone |
| VramMap.Vram.MapVRAMCD | switch/src/GPU.cpp:602-684 | the same, banks the ARM7 owns being dirty all over at any time; the status bit is lost when the same byte is written again |
| VramMap.Vram.MapVRAME | switch/src/GPU.cpp:686-746 | the same for bank E |
| VramMap.Vram.MapVRAMFG | switch/src/GPU.cpp:748-844 | the same for banks F and G |
| VramMap.Vram.MapVRAMH | switch/src/GPU.cpp:846-904 | the same for bank H |
| VramMap.Vram.MapVRAMI | switch/src/GPU.cpp:906-972 | the same for bank I |
| VramMap.Vram.WriteVRAMCNT | switch/src/NDS.cpp:3198-3207 | every control byte write, but for offsets 4 to 7 of C and D: maps, pointers and ARM7 marks stay the function of the bytes |
| VramMap.SlowIsOr | switch/src/GPU.h:335-346 | ascending tests for the banks a region can hold compute the or of exactly the mapped banks |
| VramMap.PointerOffset | switch/src/GPU.h:332-333 | an entry's pointer plus the offset in its page reaches the byte the bank shows at the address |
| VramMap.Vram.Read | switch/src/GPU.h:329-347 | reads of one to eight bytes, through a pointer or slowly: each bit of each byte is set exactly if some bank that its control byte shows at the address has the bit set at the byte it shows there, and for the object extended palette of engine A as its tests give |
| VramMap.Vram.Write | switch/src/GPU.h:349-390 | a store reaches exactly the mapped banks at their offsets and marks exactly their granules, except for the ARM7 |
| VramMap.Vram.WriteLCDC | switch/src/GPU.h:261-327 | a store to the fixed addresses reaches the bank there if it is mapped to the LCDC region, and nothing otherwise |
| VramMap.LcdcPlaces | switch/src/GPU.h:201-252 | the cases on the address give every byte of every bank exactly one place in the region, which repeats every megabyte |
| VramMap.Vram.ReadLCDC | switch/src/GPU.h:196-258 | reads of one to eight bytes return the bytes of the bank at the address if it is mapped there, else zero |
| VramMap.LcdcReadAfterWrite | switch/src/GPU.h:261-327 | what is read back there after a store is the value where a bank is mapped, and zero elsewhere |
| VramMap.ReadAfterWrite | switch/src/GPU.h:349-390 | what is read back after a store is the value stored, also when several banks are written and ored |
| VramFlat.FlatVram.DeriveState | switch/src/GPU.cpp:1200-1262 | reports exactly the granules that are remapped or dirty in a mapped bank, records the mapping and cleans exactly the banks seen in the region |
| VramFlat.BitIsBankGranule | switch/src/GPU.cpp:1230-1246 | the word of the dirty field that is read for a slot holds the granules the bank shows there |
| VramFlat.FlatVram.CopyLinear | switch/src/GPU.cpp:1271-1297 | the named granules hold what the mapping shows now, all others are untouched |
| VramFlat.FlatVram.Refresh | switch/src/GPU.cpp:1299-1321 | a refreshable copy becomes equal to what is mapped now and stays refreshable: each bit of the copy is set exactly if some bank shown at the address has it set at its own offset, but for both palette banks mapped |
| VramFlat.RefreshIsExact | switch/src/GPU.cpp:1200-1297 | recording and dirty bits together suffice: no byte that differs is missed |
| VramFlat.AccountedKeepsFresh | switch/src/GPU.h:106-115 | a copy stays refreshable under any change of banks that lies in granules now dirty |
| VramFlat.WriteAccounted | switch/src/GPU.h:526-534 | the writes of both processors are such changes, those of the ARM7 because its banks are dirty all over |
| VramFlat.StaysFreshExactly | switch/src/GPU.cpp:1252-1259 | a copy stays refreshable for all contents when granules are cleared if and only if no recorded mapping loses its last dirty bank for a granule |
| VramFlat.UnrecordedSurvives | switch/src/GPU.cpp:1252-1259 | in particular when no cleared bank is still recorded by the other tracking set |
| VramFlat.ShownIsOrExactly | switch/src/GPU.cpp:1350-1361 | what is copied is the or of the mapped banks, exactly but for both palette banks mapped and a bit only the first has |
| VramFlat.BothPalettes | switch/src/GPU.cpp:1350-1361 | that happens when banks F and G are both given to the object palette |
| VramFlat.Perform | switch/src/GPU.cpp:544-1321 | one mapping change, store or use: tracked state as specified, all copies refreshable while other sets' mappings are spared, the used copy exact |
| VramFlat.Run | switch/src/GPU.cpp:544-1321 | over every run in which no tracking set clears what another still needs, each use finds its copy equal to the mapped banks |
| VramFlat.StaleCopy | switch/src/GPU.cpp:1252-1259 | a run of the code that ends with a copy that differs from the mapped bank |
| Fifos.Fifo.Write | switch/src/FIFO.h:47-58 | the ring appends to a queue and drops what does not fit |
| Fifos.Fifo.Read | switch/src/FIFO.h:60-72 | the oldest value leaves the queue; an empty queue stays as it is |
| Fifos.Fifo.Clear | switch/src/FIFO.h:28-34 | the queue is empty |
| Fifos.Fifo.PeekAt | switch/src/FIFO.h:79-86 | the queued value at an offset, across the end of the ring |
| Ccm.IncrementCounter | switch/src/tiny-AES-c/aes.c:552-563 | the byte-wise increment with carry adds one to a 24-bit counter field without touching what precedes it |
| Ccm.XorByteBits | switch/src/DSi_AES.cpp:171 | each bit of a combined byte is set where exactly one of the two is |
| Ccm.BlocksOfWords | switch/src/DSi_AES.cpp:162-182 | blocks put into words and read as blocks again are the same blocks |
| Ccm.WordsOfBlocks | switch/src/DSi_AES.cpp:162-182 | words taken as blocks and put out as words again are the same words |
| Ccm.SecondPassUndoesFirst | switch/src/DSi_AES.cpp:157-235 | decrypting what was encrypted, or counter mode twice, gives the input, the same counter and the same running MAC, for every input |
| Ccm.EngineFollowsRfc | switch/src/DSi_AES.cpp:185-326 | for up to 65535 blocks the counter never leaves its three bytes, the output is the ciphertext and the running MAC the CBC-MAC of RFC 3610, sections 2.2 and 2.3 |
| Ccm.EncryptionIsCcm | switch/src/DSi_AES.cpp:438-446 | a whole encryption puts out the ciphertext of RFC 3610 and its authentication value before it is cut to M bytes |
| AesEngine.Engine.FirstCounter | switch/src/DSi_AES.cpp:296-300 | the overlapping byte moves yield the counter block A_1 of the nonce |
| AesEngine.Engine.StartTransfer | switch/src/DSi_AES.cpp:272-326 | the context and first MAC are those of the session the registers stand for; without blocks nothing starts |
| AesEngine.Engine.IncrementIv | switch/src/tiny-AES-c/aes.c:553-563 | the carry loop is the big-endian increment of the whole block |
| AesEngine.Engine.Xcrypt | switch/src/tiny-AES-c/aes.c:538-569 | a block is combined with the key stream block of the old counter |
| AesEngine.Engine.TransformBlock | switch/src/DSi_AES.cpp:157-235 | in all modes both byte orders are reversed and the plaintext, not the ciphertext, enters the MAC |
| AesEngine.Engine.Update | switch/src/DSi_AES.cpp:403-467 | processes while it can, so that a transfer is finished or waits for words or room; no word is lost, repeated or reordered |
| AesEngine.Engine.CompareMac | switch/src/DSi_AES.cpp:432-436 | the status bit is set exactly if all sixteen bytes agree, in reverse order |
| AesEngine.Engine.FinishTransfer | switch/src/DSi_AES.cpp:420-457 | the final MAC is encrypted with counter zero, compared or readied for output |
| AesEngine.Engine.WriteInputFIFO | switch/src/DSi_AES.cpp:368-379 | any write at any time keeps the stream relation between words accepted, queued, processed and handed out |
| AesEngine.Engine.ReadOutputFIFO | switch/src/DSi_AES.cpp:337-366 | any read at any time keeps it, and lets a waiting MAC follow |
| AesEngine.NeverStuck | switch/src/DSi_AES.cpp:405-417 | with the output empty and no word acceptable the transfer is over and everything was handed out |
| AesEngine.Transfer | switch/src/DSi_AES.cpp:337-467 | under every interleaving of reads and writes the output is the same function of session and input, and the MAC bit says whether the MAC register held the tag |
| CounterMode.Encipher | switch/src/DSi_AES.cpp:272-316 | a counter-mode transfer from the registers, on its words: byte p of the output is byte p of the input combined with byte 15 - p % 16 of the cipher's block for the reversed key and the big-endian number of the reversed IV plus p / 16, modulo 2^128 |
| CounterMode.IncrementAddsOne | switch/src/tiny-AES-c/aes.c:552-563 | the byte-wise increment adds one to the big-endian number, wrapping at its end |
| CounterMode.BlocksInNumbers | switch/src/DSi_AES.cpp:185-235 | flags, nonce and the three counter or length bytes of A_i and B_0 are those of RFC 3610, sections 2.2 and 2.3, in numbers |
| AesEngine.Seal | switch/src/DSi_AES.cpp:248-467 | a CCM encryption through the FIFOs is RFC 3610, its authentication value not cut to M bytes, on the reversed key, nonce and blocks |
| AesEngine.FeedBack | switch/src/DSi_AES.cpp:248-467 | the second transfer alone: given what the first put out, it returns what the first was fed |
| AesEngine.ThereAndBack | switch/src/DSi_AES.cpp:248-467 | for every key, nonce, length and two interleavings, feeding output and MAC back in the opposite mode gives the input and sets the MAC bit |
| CheatEngine.CopyPayload | switch/src/AREngine.cpp:356-385 | the copy loops consume as many words as skipping does and write what is specified |
| CheatEngine.CopyStoresPayload | switch/src/AREngine.cpp:356-385 | the mix of word and byte writes stores exactly the b bytes behind the instruction at consecutive addresses |
| CheatEngine.SkipPayload | switch/src/AREngine.cpp:119-123 | for every length a code has room for, skipping a copy lands behind its bytes, its counter not wrapping |
| CheatEngine.CopyInMemory | switch/src/AREngine.cpp:387-409 | word and byte loops interleave reads and writes in the specified order |
| CheatEngine.StepAdvances | switch/src/AREngine.cpp:105-415 | every step keeps both code pointers on instruction boundaries and decreases loop start to end, rounds left, code left, in this order |
| CheatEngine.RunCheat | switch/src/AREngine.cpp:88-416 | every code of whole instructions halts, whatever the bus answers, in the specified state and with the specified accesses |
| CheatOpcodes.Skipped | switch/src/AREngine.cpp:115-127 | under a false condition all opcode bytes but C5, D0, D1 and D2 only move the code pointer, by two words and the data of E0 to EF |
| CheatOpcodes.Stores | switch/src/AREngine.cpp:131-141 | 00 to 2F write the second word, its low half or its low byte to the 28-bit address plus the offset, modulo 2^32 |
| CheatOpcodes.Compares | switch/src/AREngine.cpp:143-185 | 30 to 6F push the condition and make it b > v, b < v, b == v or b != v for the word v read at the address |
| CheatOpcodes.ComparesMasked | switch/src/AREngine.cpp:187-237 | 70 to AF do so with the low half of b and those bits of the halfword read that the high half of b does not have |
| CheatOpcodes.LoadsOffset | switch/src/AREngine.cpp:239-241 | B0 to BF load the offset |
| CheatOpcodes.Loops | switch/src/AREngine.cpp:243-278 | C0 remembers loop start, count and condition, C6 stores the offset, the others stop |
| CheatOpcodes.Counts | switch/src/AREngine.cpp:258-274 | C5 counts at any time and, under a true condition, compares the bits of the count under the low half of b with its high half |
| CheatOpcodes.Ends | switch/src/AREngine.cpp:280-311 | D0 pops the condition; D1 and D2 go round again while rounds are left, and then restore the condition or clear everything |
| CheatOpcodes.Sums | switch/src/AREngine.cpp:313-354 | D3, D4, D5 and DC set or add to offset and data register, modulo 2^32 |
| CheatOpcodes.Transfers | switch/src/AREngine.cpp:325-350 | D6 to DB store or load the data register with 32, 16 and 8 bits at b plus the offset; stores move the offset on by the width |
| CheatOpcodes.Copies | switch/src/AREngine.cpp:356-385 | E0 to EF store the b bytes behind the instruction to consecutive addresses, words and then single bytes |
| CheatOpcodes.CopiesMemory | switch/src/AREngine.cpp:387-409 | F0 to FF copy b bytes from the offset to the address, each word or byte read just before it is written |
| CheatEngine.FalseSkips | switch/src/AREngine.cpp:115-127 | under a false condition nothing up to the next control instruction reads, writes or changes a register |
| CheatEngine.FailedTestExactly | switch/src/AREngine.cpp:115-296 | up to its own ENDIF, found by counting nested tests, a failed test changes nothing but the code pointer if and only if no ENDIF, counter or loop end stands in between |
| CheatEngine.OnlyPcExactly | switch/src/AREngine.cpp:115-311 | the same up to any place, by the first instruction that a false condition does not skip |
| CheatEngine.LoopCondStays | switch/src/AREngine.cpp:243-248 | the condition a loop saves is always true |
| CheatEngine.FalseIfIsNothing | switch/src/AREngine.cpp:143-283 | then execution goes on behind the ENDIF with the condition it had, at most 31 conditions deep |
| CheatEngine.NestedIfLeaks | switch/src/AREngine.cpp:280-283 | a failed test around another test executes what follows the inner ENDIF and skips what follows its own |
| CheatEngine.NestedOwnEndIf | switch/src/AREngine.cpp:280-283 | its own ENDIF is the second, and the first is what it does not skip |
| CheatEngine.LoopRunsBody | switch/src/AREngine.cpp:243-296 | FOR b with a plain body runs the body b + 1 times and restores the condition and stack of the FOR |
| CheatFile.ARCodeFile.constructor | switch/src/ARCodeFile.cpp:29-40 | the error flag is set exactly if the file exists and is malformed |
| CheatFile.ARCodeFile.Load | switch/src/ARCodeFile.cpp:47-163 | the line loop with its four local variables computes the parser function, failures included |
| CheatLines.FeedExactly | switch/src/ARCodeFile.cpp:64-155 | a line is accepted if and only if it is put together, from blanks, keyword, signs, digits, prefixes and name, as one of the four kinds, and then does what that kind does with exactly those parts |
| CheatLines.LoadExactly | switch/src/ARCodeFile.cpp:58-162 | a file loads as a list if and only if its first chunk, up to a line feed or 1023 characters, is such a line and the rest loads from there |
| CheatLines.NumberExactly | switch/src/ARCodeFile.cpp:132-133 | %08X takes at most eight characters, with sign and prefix, of either case, and gives their value modulo 2^32 |
| CheatFile.ARCodeFile.Save | switch/src/ARCodeFile.cpp:165-193 | writes the printed list |
| CheatFile.LoadedIsValid | switch/src/ARCodeFile.cpp:47-163 | whatever the file contained, a loaded list has only names of 1 to 127 characters without CR, LF, NUL or leading space, and codes of at most 64 pairs |
| CheatFile.RoundTripExactly | switch/src/ARCodeFile.cpp:47-193 | loading what was saved gives the list back if and only if all its names and codes are of that kind |
| CheatFile.SavedAgainUnchanged | switch/src/ARCodeFile.cpp:47-193 | a list that was loaded from any file survives saving and loading |
| CheatFile.Resave | switch/src/ARCodeFile.cpp:29-193 | the same for the file objects |
| Qoi.Decode | tools/stream_receiver.py:46-96 | on every input, short, truncated or overlong, the result is the cropped expansion of the chunks, and nothing outside the input is read |
| QoiFormat.ReadImage | tools/stream_receiver.py:46-96 | on every file, in numbers: an index chunk i shows the last earlier pixel with (3r + 5g + 7b + 11a) mod 64 == i, or the clear one; the other chunks, the header and the three bytes of each pixel are read as the format says |
| Qoi.DecodeChunk | tools/stream_receiver.py:64-88 | the branches on the first byte read the chunk the format defines and apply it |
| Qoi.ChunkComesBack | tools/stream_receiver.py:64-88 | every valid chunk is read back from its bytes, wherever it stands |
| Qoi.ChunksComeBack | tools/stream_receiver.py:60-90 | so is every sequence of chunks, up to the padding |
| Qoi.EmitColor | switch/src/frontend/switch/qoi.h:438-474 | with all differences in wrapped signed bytes, the chunk chosen turns the previous pixel into this one, and no other kind of chunk that does so is shorter |
| Qoi.IndexShows | switch/src/frontend/switch/qoi.h:430-434 | an index chunk means the same pixel to the decoder, although the two indexes can differ at opaque black |
| Qoi.EncodePixel | switch/src/frontend/switch/qoi.h:406-477 | one pixel more keeps the bytes so far plus the pending run equal to the pixels so far; runs go on to 62 or the last pixel, and else at most a shortest chunk is emitted |
| Qoi.EncodeOther | switch/src/frontend/switch/qoi.h:430-474 | the index byte is (3r + 5g + 7b + 11a) mod 64 of the pixel, and is emitted exactly if that slot holds it |
| Qoi.Write32ComesBack | switch/src/frontend/switch/qoi.h:341-346 | four bytes are read back as the number |
| Qoi.Encode | switch/src/frontend/switch/qoi.h:356-486 | fails exactly for the sizes and formats it rejects, and otherwise the receiver's image of the bytes is the input's colors, they end with seven zeroes and a one, and fit the allocation, whose size is an int |
| Qoi.ThereAndBack | tools/stream_receiver.py:46-96 | sender and receiver together are the identity on opaque images |
| FrameAssembler.Assembler.Push | tools/stream_receiver.py:104-127 | stores, opens, drops stale entries, counts them and completes as specified |
| FrameAssembler.PushIsSafe | tools/stream_receiver.py:118-127 | on any part of a stream of frames, repeated or late, entries hold only right bytes and a frame handed out is the one sent |
| FrameAssembler.EveryFrameIsSent | tools/stream_receiver.py:99-127 | from an empty assembler, over any sequence of parts of any frames, every frame returned equals the frame sent |
| FrameAssembler.CompleteFrameIsDelivered | tools/stream_receiver.py:99-127 | a frame whose parts all arrive while no packet makes it stale is returned |
| FrameAssembler.SendFrame | switch/src/frontend/switch/Stream.cpp:174-209 | the packets are the parts of a valid cutting of the data, 1400 bytes each but for the last, numbered and placed accordingly |
| FrameAssembler.RelevantByLetters | tools/stream_receiver.py:18-19 | the packets looked at are those marked MDS1 or MDS2 |
| Dma.Channel.WriteCnt | switch/src/DMA.cpp:106-144 | at any time: switching an idle channel on starts an immediate transfer from the register addresses, zero standing for the largest count; with a transfer in progress the cursors move and what remains is kept; other writes touch no transfer |
| Dma.Channel.Start | switch/src/DMA.cpp:146-190 | a pass has 1 to RemCount units, at most 112 for the geometry FIFO; resuming continues the transfer if and only if the destination is not reloaded or is where it began |
| Dma.Channel.RunUnits | switch/src/DMA.cpp:227-244 | at least one unit, stopping exactly when time, count or a stall says so, past the target by less than a unit |
| Dma.Channel.RunBatch | switch/src/DMA.cpp:270-283 | as many words as fit the time; it continues the transfer if and only if the source counts up or one word is copied |
| Dma.FixedSourceBatch | switch/src/DMA.cpp:270-283 | two words from a fixed source to the geometry FIFO are sent from consecutive addresses |
| Dma.ReloadedTransfer | switch/src/DMA.cpp:146-190 | after the pause of a geometry transfer to a reloaded address its last word goes where the first went |
| Dma.Channel.Run | switch/src/DMA.cpp:192-325 | a slice makes progress, overshoots by less than a unit, keeps 1 <= IterCount <= RemCount while running, and ends the transfer exactly at its last unit |
| Dma.JoinAccesses | switch/src/DMA.cpp:227-244 | consecutive stretches of a transfer make one transfer, addresses wrapping at 32 bits |
| Dma.Drive | switch/src/DMA.cpp:146-435 | any slices, stalls, pauses and triggers make exactly the accesses of an uninterrupted transfer: the i-th is at both first addresses plus i times the increment of two or four bytes, modulo 2^32 |
| Crc32.Reflect | switch/src/CRC32.cpp:26-38 | the low bits in reverse order, the others cleared |
| Crc32.UpStepIsReversedStep | switch/src/CRC32.cpp:48-49 | a step of the builder is the mirror image of a bit-serial step |
| Crc32.InitTable | switch/src/CRC32.cpp:40-53 | every entry is eight bit-serial steps of its index |
| Crc32.LookUpIsEightSteps | switch/src/CRC32.cpp:65-66 | shifting by a byte and adding a table entry is eight bit-serial steps |
| Crc32.RegisterIsRemainder | switch/src/CRC32.cpp:55-69 | the register of the bit-serial CRC is that remainder, for every message |
| Crc32.Checksum.CRC32 | switch/src/CRC32.cpp:55-69 | the bit-serial CRC of RFC 1952, section 8, for every message, whether the table was built before or not; its complement is the remainder of the message with 32 zeroes behind it and its first 32 bits inverted, divided by the CRC polynomial |
| Banking.Arm.UpdateMode | switch/src/ARM.cpp:393-476 | for all pairs of modes the swaps keep the register file indexed by mode |
| Banking.SharedExactly | switch/src/ARM.cpp:393-476 | two of the seven modes see the same register exactly if it is R0 to R7 or R15, R8 to R12 outside FIQ mode, or they are user and system mode |
| Banking.Run | switch/src/ARM.cpp:393-476 | over every sequence of mode changes and register writes the swapped registers are that file |
| Banking.Arm.RestoreCPSR | switch/src/ARM.cpp:359-391 | the mode's saved status becomes current and the file is kept; modes without one keep theirs |
| Banking.Arm.JumpTo | switch/src/ARM.cpp:246-357 | the state bit comes from the target or the restored status, and only R15 changes in the file |
| Banking.Arm.TriggerIRQ | switch/src/ARM.cpp:478-499 | masked, nothing changes; else R15 is at the vector, status and link are saved for IRQ mode and every other register of every mode is kept |
| Banking.IrqAndBack | switch/src/ARM.cpp:359-499 | entry and return recover status, R15 and all registers of all modes but the link of IRQ mode |
| Banking.StoreUser | switch/src/ARMInterpreter_LoadStore.cpp:466-529 | the running address, taken down for descending transfers and on by a word before or after each access, stores the listed registers at their addresses, and all banks are as before |
| Banking.AddressInNumbers | switch/src/ARMInterpreter_LoadStore.cpp:474-504 | with n registers listed and k of them below this one, its address is the base plus 4k, plus 4(k + 1), minus 4(n - 1 - k) or minus 4(n - k), by the four addressing modes |
| Banking.MeetsBase | switch/src/ARMInterpreter_LoadStore.cpp:474-504 | the running address is the base only at the lowest register of STMIA and the highest of STMDA |
| Banking.StoresUserExactly | switch/src/ARMInterpreter_LoadStore.cpp:506-514 | a listed register is stored with its user-bank value, except exactly for the base on the ARM7 when it is of the user bank, not the lowest, and not the highest of STMDA |
| Banking.StmStoresUserExactly | switch/src/ARMInterpreter_LoadStore.cpp:466-529 | the whole instruction stores the user bank if and only if it is not such an instruction |
| Banking.WrongBaseStored | switch/src/ARMInterpreter_LoadStore.cpp:508-511 | STMIA R1, {R0, R1}^ on the ARM7 stores 0x1004 where R1, 0x1000, belongs |
| Banking.LoadUser | switch/src/ARMInterpreter_LoadStore.cpp:387-464 | the listed registers of the user bank take the values from memory and every other bank keeps its registers |

## Left out

- Translation cache: the path for remapped memory, which retires a block without unlisting it; the
  list of invalid literals, to which the code never adds anything; two CPUs sharing one pool; a
  compilation whose own interpretation writes the code it compiles. Hashes are taken as injective and stand for what they
  are computed from; bitmaps are sets of bit positions; a compiled block is a value.
- Code generation, the decoding tables and the fast memory system calls. Instructions are arbitrary
  functions that respect their Info sets.
- CodeCoverage.BuildCoverage: what happens past the ends of the tables, for the settings that
  TablesFitExactly rules out.
- FetchLoop.FetchBlock: literals outside executable memory, which are taken from local address 0, and
  those at unaligned addresses, which are listed by the word they are in.
- RestoreSafety.CoherentExactly: code outside main memory and at its last instruction, behind which
  the address map has nothing. An existing block is handed out for either state; that it was
  compiled for the one it is run in needs the same condition.
- TableSafety.TablesFitExactly, Execution.FetchExecuted: the ARM9.
- IdleLoop.AcceptedLoopIdles: goes one way, since unconditional instructions are more than is needed;
  the exact condition is that of IdlesExactly.
- RegisterCache.CompileBlock: literal tracking is not modelled, and blocks have fewer than 1000
  instructions, the bound the victim search is written for (a block has at most 32).
- VramMap.Vram.MapVRAMCD: offsets 4 to 7 of banks C and D, for which the map index leaves its array.
- VramFlat.Run: rendering from the copies; when a region is used is part of the run.
- AesEngine.Engine.StartTransfer: associated data and the MAC taken from the FIFO, both marked as
  to do in the source, the choice of key slots and key derivation; FIFOs are empty at the start and
  control writes during a transfer are not made. Registers are values.
- AesEngine.Engine.Update: DMA requests and interrupts.
- CheatEngine.RunCheat: codes whose last copy reaches behind their length, which read stray words;
  bus addresses wrap and what the bus answers is arbitrary.
- CheatFile.ARCodeFile.Load: a `%d` beyond the range of int, "0x" without a digit, the categories
  left in the object after a failed load, and the file system.
- Qoi.Encode: failing allocation and the C interface; JPEG frames.
- FrameAssembler.SendFrame: the packing of headers into bytes, sockets and audio.
- Dma.Channel.Run: the cycle tables, which are an arbitrary positive function of the addresses and
  the width; interrupts; the batch path's wrapping at the end of main memory.
- Dma.Drive: transfers that reload the destination, or that send words to the geometry FIFO from a
  source that does not count up; Start and RunBatch say exactly when those go on as one transfer.
- Banking.StoreUser, Banking.LoadUser: writeback, access timing and modes the processor does not have.
- Banking.Arm.JumpTo: fetching the instructions behind the target.
- The 2D and 3D renderers, sound, wifi, camera, SD, savestates and all platform code.
