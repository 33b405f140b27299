# Unwinding and exceptions, verified

A Dafny model of the hard parts of two C++ runtime libraries: the DWARF unwinder of `libgcceh` and the
C++ ABI support of `libcxxrt`, both as built for x86-64. It proves what these parts promise their callers.

- **The FDE index** (`FdeData`, `FdeTable`, `FdeSort`, `FdeLongest`, `FdeObject`, `FdeRegistry`, `FdeRuns`,
  `FdeWritten`). Registered images are classified and sorted when they are first searched. Sorting splits
  off the erratic elements with a chain that is laid over their own array, heapsorts them and merges them
  back in place. Every lookup, in every run of registrations, lookups and deregistrations, whatever memory
  there is, gives the answer of a plain scan over everything registered, and so reports the one function
  that the bytes of the FDEs put there.
- **The frame interpreter** (`CfaCode`, `CfaTable`, `CfaStandard`, `CfaProgram`, `Augmentation`,
  `FrameState`, `FrameLookup`). From a return address to the FDE that the index finds for it, and from the
  bytes of a CIE and an FDE to the register rules: decoding, the two parsers of augmentations, remembered
  states in recycled records, the row of the unwind table that the result has to be, and each instruction
  against the rule that DWARF version 4 gives it.
- **The expression machine** (`StackMachine`, `StackStandard`). A 64-slot stack machine: each operation does what the
  standard says, and the postfix form of an expression tree leaves the value of the tree.
- **Numbers and pointers in memory** (`Words`, `PointerEncoding`). LEB128 and encoded pointers, with round
  trips, and 64-bit arithmetic.
- **The initialisation guard** (`Guard`). A spin lock and a flag in one word or in two, under every
  interleaving of any number of threads, refining a cell that is idle, being initialised, or done.
- **Caught exceptions** (`CatchDiscipline`, `CaughtExceptions`, `CaughtRuns`, `ExceptionRefs`). Handler counts that turn
  negative while a rethrow is pending, the intrusive list of caught exceptions, and the reference count
  shared by threads, handles and dependent exceptions.
- **Casts to base classes** (`Upcast`) over any inheritance graph.

Where the source changes things step by step, the model does too: arrays, linked objects and loops, each
proved against a function or predicate on values, about which the lemmas then speak. `dafny verify
dfyconfig.toml` checks everything.

## What turned out otherwise than documented

- `fde_split` says that it keeps a sequence "of longest possible length". It keeps exactly the elements that
  have no smaller one after them. That is of longest possible length if and only if the elements can be dealt
  out to as many strictly descending lanes as are kept, which a count over the input decides
  (`FdeLongest.SplitIsLongest`); it is so whenever the moved elements between two kept ones descend
  (`FdeLongest.ErraticDescendIsLongest`). Of 2, 3, 4, 1 it keeps one where three are possible
  (`FdeLongest.SplitIsNotLongest`).
- The binary and the linear search compare an address with a function differently; they agree exactly when it
  ends within the address space (`FdeObject.SearchTestsAgree`). The index theorems ask for that.
- An image with a CIE that cannot be handled loses the pointer it is deregistered by when it is first
  searched; `FdeRuns.ExactlyHeld` says exactly when deregistration finds an image.
- Deregistration ignores what looks like an empty table, although an array of tables may have been registered
  there. A registered array whose CIEs can be handled comes back if and only if the low half of its first
  pointer is not zero (`FdeRuns.ArrayComesBack`); one with its table at 2^32 is left behind, and its FDEs are
  still found (`FdeRuns.ArrayIsLeftBehind`).
- `get_cie_encoding` and `extract_cie_info` skip a personality pointer alike, except when its encoding is
  both indirect and aligned and it does not lie on a pointer boundary (`Augmentation.PersonalitySkip`); then
  they can disagree (`Augmentation.IndirectAlignedPersonality`). They also disagree when an `S` comes before
  the `R` and the encoding is not absolute (`Augmentation.ParsersAgree`), or when there is an `R` but no `z`
  (`Augmentation.IndexSpelled`).
- `DW_CFA_restore` always makes the register unsaved. That is what DWARF version 4, section 6.4.2.3, asks
  for exactly when the CIE leaves the register unsaved (`CfaStandard.StepConforms`); a frame whose FDE
  restores only such registers has the rules of the standard (`FrameState.BytesConform`).
- A CIE with the old augmentation "eh" has a pointer after the string, which the index does not skip. From
  version 4 on it takes that pointer for the sizes of addresses, and refuses the CIE unless its first bytes
  happen to be 8 and 0 (`Augmentation.IndexSpelled`); the interpreter reads the CIE (`Augmentation.ExtractSpelled`).
- `DW_OP_pick` finds every entry of the stack but the bottom one (`StackMachine.PickMissesBottom`).
- An encoded pointer that is equal to its own origin reads as null (`PointerEncoding.EncodedRoundTrip`).

## Model

| member | source | states |
|---|---|---|
| FdeSort.BuildChain | libgcceh/unwind-dw2-fde.c:440-461 | after the first pass exactly the elements with no strictly smaller one later in the input are marked, in at most 2N comparisons, though the chain of marks lies in the erratic array itself |
| FdeSort.Compact | libgcceh/unwind-dw2-fde.c:463-477 | the second pass moves the others to the erratic array and closes the gaps, both in their original order, without overwriting anything unread |
| FdeSort.FdeSplit | libgcceh/unwind-dw2-fde.c:440-478 | `linear` ends with exactly the elements that have no strictly smaller one after them and `erratic` with the others, in at most 2N comparisons |
| FdeSort.SplitPartitions | libgcceh/unwind-dw2-fde.c:427-438 | what is kept and what is moved is together what was there |
| FdeSort.KeptIsSorted | libgcceh/unwind-dw2-fde.c:427-438 | what is kept is sorted |
| FdeLongest.SplitIsLongest | libgcceh/unwind-dw2-fde.c:427-438 | what is kept is a sorted subsequence, and no sorted subsequence is longer if and only if the elements can be dealt out to as many strictly descending lanes as are kept, and if and only if no element can end a sorted subsequence longer than that |
| FdeLongest.ErraticDescendIsLongest | libgcceh/unwind-dw2-fde.c:427-438 | it is the longest whenever no two moved elements in a row ascend |
| FdeSort.FrameDownheap | libgcceh/unwind-dw2-fde.c:485-506 | one sift makes a heap of the range when all below its root was one, permutes it, and takes at most 2 log2 n comparisons |
| FdeSort.FrameHeapsort | libgcceh/unwind-dw2-fde.c:511-540 | the vector becomes a sorted permutation of itself in at most 3 n log2 n comparisons |
| FdeSort.FdeMerge | libgcceh/unwind-dw2-fde.c:543-568 | the backward merge in place leaves the merge of both vectors in the first, never overwriting an unread element, in at most N comparisons |
| FdeSort.MergePermutes | libgcceh/unwind-dw2-fde.c:543-568 | merging loses and invents nothing |
| FdeSort.MergeSorts | libgcceh/unwind-dw2-fde.c:543-568 | the merge of two sorted vectors is sorted |
| FdeSort.EndFdeSort | libgcceh/unwind-dw2-fde.c:570-598 | with or without an erratic array, `linear` ends as a sorted permutation of what was inserted; N elements, n of them erratic, take at most 3N + 3 n log2 n comparisons |
| FdeObject.FdeObject.Classify | libgcceh/unwind-dw2-fde.c:605-660 | one table is counted exactly: the live FDEs, the encodings they use, the lowest address; or the count gives up at the first CIE that cannot be handled |
| FdeObject.Reclassify | libgcceh/unwind-dw2-fde.c:722-791 | counting an object again, as happens when the count did not fit or memory was short, changes nothing |
| FdeObject.FdeObject.AddFdes | libgcceh/unwind-dw2-fde.c:662-720 | inserts exactly the live FDEs of the table, the number that was counted |
| FdeObject.FdeObject.FillAndSort | libgcceh/unwind-dw2-fde.c:773-782 | the array is filled exactly and ends as the sorted list of the live FDEs |
| FdeObject.FdeObject.InitObject | libgcceh/unwind-dw2-fde.c:727-791 | whatever allocations fail, the object ends sorted, or classified but unsorted, or given up on, each with all its fields as that state requires |
| FdeObject.StartFdeSort | libgcceh/unwind-dw2-fde.c:401-418 | both arrays, or only the linear one, or none, and none when there is nothing to sort |
| FdeObject.FdeObject.LinearSearchFdes | libgcceh/unwind-dw2-fde.c:797-862 | the linear search is the plain scan of the table |
| FdeObject.FdeObject.BinarySearchFdes | libgcceh/unwind-dw2-fde.c:867-952 | the binary search of the sorted array finds an FDE that covers the address if any does |
| FdeObject.SearchHalves | libgcceh/unwind-dw2-fde.c:867-952 | in a sorted array of functions that do not overlap, one comparison rules out one side |
| FdeObject.SearchTestsAgree | libgcceh/unwind-dw2-fde.c:857-891 | the linear and the binary test give the same verdict on every address if and only if the function ends within the address space |
| FdeObject.SummaryDescribes | libgcceh/unwind-dw2-fde.c:605-720 | an object not marked as mixed has one encoding throughout, so that reading it once is enough |
| FdeObject.FdeObject.SearchObject | libgcceh/unwind-dw2-fde.c:954-996 | for every address and every outcome of the allocations, the answer of the plain scan of the registered tables; nothing for an object that cannot be handled |
| FdeData.ScanIsUnique | libgcceh/unwind-dw2-fde.c:1007-1009 | when no functions overlap, any FDE that covers an address is the one the scan finds |
| FdeTable.WalkVisitsItems | libgcceh/unwind-dw2-fde.h:160-179 | stepping from record to record by the length words visits exactly the records that were written, up to the zero length |
| FdeTable.CieIsFound | libgcceh/unwind-dw2-fde.h:154-158 | a record is taken for a CIE exactly when it is one, and every FDE finds the CIE it was written for |
| FdeTable.TableIsFound | libgcceh/unwind-dw2-fde.h:154-179 | a table written in memory is found as the list of its items, one record each and in order, with the encodings that the CIEs announce |
| FdeTable.TableLiesThere | libgcceh/unwind-dw2-fde.c:81-83 | a table found in memory has no records if and only if the word that registration tests is zero |
| FdeRegistry.ObjectList.Insert | libgcceh/unwind-dw2-fde.c:1027-1032 | a searched object goes into the list of seen objects in descending order of its lowest address |
| FdeRegistry.BehindCandidate | libgcceh/unwind-dw2-fde.c:1007-1017 | no object behind the first one that begins at or below the address can answer, if the images do not interleave |
| FdeRegistry.Registry.Register | libgcceh/unwind-dw2-fde.c:77-101 | one more unseen object, all others untouched; nothing at a null pointer or where the first word is zero |
| FdeRegistry.Registry.RegisterTable | libgcceh/unwind-dw2-fde.c:127-145 | the same for an array of tables |
| FdeRegistry.Registry.FindFde | libgcceh/unwind-dw2-fde.c:999-1058 | the answer of a brute-force search of everything registered; no registration is lost; both lists stay disjoint, acyclic and in order; the reported function start is that of the answer |
| FdeRegistry.OneAnswer | libgcceh/unwind-dw2-fde.c:1007-1009 | at most one registered image answers for an address, so the order of the lists cannot matter |
| FdeRegistry.Registry.Deregister | libgcceh/unwind-dw2-fde.c:173-218 | ignored exactly at a null pointer or where the first word is zero; else exactly the first object that still holds the pointer is unlinked and handed back, unseen or seen, sorted or not, with the pointer in its union; if none does, the assertion fails |
| FdeRuns.ExactlyHeld | libgcceh/unwind-dw2-fde.c:173-218 | with distinct keys no other object than the one registered under the pointer comes back, and it does if and only if it has not been searched or its CIEs can be handled and, for an array, the low half of its first pointer is not zero |
| FdeRuns.ArrayComesBack | libgcceh/unwind-dw2-fde.c:127-218 | deregistering a registered array with handled CIEs hands it back if and only if the low half of its first pointer is not zero; otherwise the caller gets a null pointer and the array stays registered |
| FdeRuns.OtherLookupsUnchanged | libgcceh/unwind-dw2-fde.c:173-218 | handing back one object changes no answer but its own |
| FdeRuns.DistinctKeysInAnyOrder | libgcceh/unwind-dw2-fde.c:173-218 | keys stay distinct however lookups reorder the objects |
| FdeRuns.Run | libgcceh/unwind-dw2-fde.c:77-218 | in every legal run every lookup gives the answer of the brute-force search, and every deregistration hands back the object registered under its key, with its pointer and bases, or a null pointer where it reads an empty table, and then changes nothing |
| FdeWritten.ExtentIsRead | libgcceh/unwind-dw2-fde.c:797-862 | the index reads the start and the size that the bytes of an FDE spell, in 2, 4 or 8 bytes, absolute, aligned, or counted from the field, the text or the data, and takes a function for removed exactly if the bytes of its format are zero in its start |
| FdeWritten.OrderlyIsTidy | libgcceh/unwind-dw2-fde.c:1007-1009 | images in memory whose functions do not overlap and which do not interleave meet what the index asks of them |
| FdeWritten.FindWritten | libgcceh/unwind-dw2-fde.c:999-1058 | over images in memory, a lookup reports the FDE whose bytes hold a start v, not zero, and a size n with v <= pc < v + n, whichever it is, and v; and nothing if there is no such FDE |
| PointerEncoding.ReadUleb128 | libgcceh/unwind-pe.h:130-148 | the loop gives the number that the groups spell, modulo 2^64, and the address after it, for up to ten groups; more would shift too far |
| PointerEncoding.ReadSleb128 | libgcceh/unwind-pe.h:152-174 | the same for signed numbers: the sign is extended unless the last group crosses the top of the word, and the result is right either way |
| PointerEncoding.AddGroupIsOr | libgcceh/unwind-pe.h:137-144 | adding a group that begins above the bits read so far is or-ing it in, shifted within 64 bits |
| PointerEncoding.SpellingsRead | libgcceh/unwind-pe.h:130-174 | every spelling of at most ten groups, padded or not, reads as the word it spells |
| PointerEncoding.UnsignedRoundTrip | libgcceh/unwind-pe.h:130-148 | the standard encoding of any 64-bit value, followed by anything, reads as that value |
| PointerEncoding.SignedRoundTrip | libgcceh/unwind-pe.h:152-174 | the same for signed values |
| PointerEncoding.EncodedRoundTrip | libgcceh/unwind-pe.h:181-269 | by the bits of the encoding: a pointer stored by its distance from the origin, the field itself or the base given, in any of the nine formats, reads as that pointer, or as the word there if it is indirect, except that the origin itself reads as null |
| PointerEncoding.PointerRoundTrip | libgcceh/unwind-pe.h:181-269 | a pointer written in any encoding, direct, indirect or aligned, reads back |
| PointerEncoding.ReadAborts | libgcceh/unwind-pe.h:210-258 | reading aborts exactly on the seven formats without a code, and on LEB128 of more than ten groups |
| PointerEncoding.ReaderIsCoherent | libgcceh/unwind-pe.h:181-269 | the actual reader has the properties that the FDE index relies on |
| CfaCode.DecodeSpelled | libgcceh/unwind-dw2.c:957-1222 | each of the 29 call frame instructions, encoded as the standard says, decodes to itself and to the address after it |
| CfaCode.UnknownAborts | libgcceh/unwind-dw2.c:1220-1222 | all other opcodes abort |
| CfaTable.RunIsTableRow | libgcceh/unwind-dw2.c:943-959 | if locations never move backwards, stopping at the target gives the rules of the last table row before it |
| CfaTable.FrameStateIsTableRow | libgcceh/unwind-dw2.c:1258-1293 | the same for the program of the CIE followed by that of the FDE, with nothing remembered in between |
| CfaStandard.ChangeConforms | libgcceh/unwind-dw2.c:970-1219 | each instruction gives its one register the rule that DWARF version 4, section 6.4.2, describes, or the CFA its new register, offset or expression, with offsets as signed products modulo 2^64, and changes nothing else; but for a restored register, which it makes unsaved |
| CfaStandard.EditConforms | libgcceh/unwind-dw2.c:965-1008 | the same for the rest of the row: the advances add the distance times the code alignment |
| CfaStandard.StepConforms | libgcceh/unwind-dw2.c:965-1222 | with the stack of remembered states, an instruction does what the standard says if and only if it does not restore a register that the CIE saves |
| CfaStandard.RunConforms | libgcceh/unwind-dw2.c:957-1224 | a program that restores no such register runs as the standard says, and fails where it does |
| CfaStandard.BothConform | libgcceh/unwind-dw2.c:1256-1293 | when the program of the CIE describes one row, and that of the FDE restores only registers that this row leaves unsaved, the two programs give the rules of the standard, which restores what the CIE said |
| CfaProgram.RunBytesIsRun | libgcceh/unwind-dw2.c:957-963 | running the bytes of a program is running the program |
| CfaProgram.Frame.Remember | libgcceh/unwind-dw2.c:1062-1076 | pushes a snapshot of the whole register state, taking a free record if there is one and else a new one; both chains stay disjoint and acyclic |
| CfaProgram.Frame.Restore | libgcceh/unwind-dw2.c:1078-1085 | pops the last snapshot and frees its record |
| CfaProgram.Frame.ExecuteCfaProgram | libgcceh/unwind-dw2.c:937-1224 | the loop over bytes and linked records computes what the machine with a plain stack of snapshots does, fails exactly when that does, and allocates as many records as states were ever remembered at once |
| Augmentation.GetCieEncoding | libgcceh/unwind-dw2-fde.c:263-314 | the loop of the index's parser finds the encoding that its description on the string says |
| Augmentation.ExtractCieInfo | libgcceh/unwind-dw2.c:411-507 | the same for the interpreter's parser: factors, encodings, personality, and where the program begins |
| Augmentation.ExtractSpelled | libgcceh/unwind-dw2.c:411-507 | every part of a CIE, with or without "eh", a `z`, and letters of which the first unknown one ends the reading, is read back: factors, return column, what the last letter of each kind says, and where the program begins, or that nothing tells where |
| Augmentation.BaseByBits | libgcceh/unwind-pe.h:84-127 | the bases of the relations: the text, the data, the function, or none; the two others have no base |
| Augmentation.IndexSpelled | libgcceh/unwind-dw2-fde.c:263-314 | of the same CIE the parser of the index finds the encoding of the first R, if there is a `z` and no S comes before it, and else absolute pointers; after "eh" it takes the pointer there for the sizes of addresses |
| Augmentation.SizesRefused | libgcceh/unwind-dw2-fde.c:271-279 | both parsers refuse a CIE for addresses that are not plain ones of 64 bits |
| Augmentation.PersonalitySkip | libgcceh/unwind-dw2-fde.c:299-305 | both parsers skip a personality pointer to the same address if and only if it is not indirect and aligned, or lies on a pointer boundary |
| Augmentation.ParsersAgree | libgcceh/unwind-dw2-fde.c:288-313 | on every string of `z` and letters P, L, S and at most one R, skipping alike, the index finds the encoding that the interpreter does, unless an S hides the R; and "omit" when the interpreter rejects the CIE |
| Augmentation.IndirectAlignedPersonality | libgcceh/unwind-dw2-fde.c:299-305 | a CIE on which the two read the encoding from different bytes |
| FrameState.UwFrameStateFor | libgcceh/unwind-dw2.c:1231-1296 | from a found FDE to the register rules: the end of the stack, a fatal error on an unknown augmentation, or the rules after both programs |
| FrameState.FrameStateIsRow | libgcceh/unwind-dw2.c:1256-1293 | if memory holds two programs in standard encoding, the rules found are those of the last row of their table before the return address, or up to it in a signal frame |
| FrameState.BytesGiveRow | libgcceh/unwind-dw2.c:1231-1296 | from the bytes of a CIE, an FDE and both programs, each part at its own place and all as the standard writes them, to the row of the unwind table before a return address, or up to it in a signal frame, and to the pointer to the language-specific data |
| FrameState.BytesConform | libgcceh/unwind-dw2.c:1231-1296 | from the same bytes, when the CIE describes one row and the FDE restores only registers that it leaves unsaved, to the rules of the standard, and to an abort exactly when they are undefined |
| FrameState.PointersByBits | libgcceh/unwind-dw2.c:987-995 | the base of the pointers in call frame programs |
| FrameState.UnknownIsFatal | libgcceh/unwind-dw2.c:1262-1265 | a CIE without a `z` but with an unknown letter makes the outcome a fatal error |
| FrameLookup.UnwindFrame | libgcceh/unwind-dw2.c:1231-1296 | over a registry of tables in memory: the end of the stack where no FDE covers the address, and else the outcome for the very FDE that the index found; if its CIE and FDE are written as the standard writes them, the rules of the row for the address |
| StackMachine.ExecuteStackOp | libgcceh/unwind-dw2.c:513-930 | the loop over an array of 64 slots does what the machine on stack values does, and traps exactly when an assertion fails or an operation is undefined |
| StackMachine.Rearrange | libgcceh/unwind-dw2.c:706-747 | drop, swap and rot on the array |
| StackMachine.PickMissesBottom | libgcceh/unwind-dw2.c:711-715 | `DW_OP_pick` gives the entry it should if and only if that is not the bottom one |
| StackStandard.UnaryIsRight | libgcceh/unwind-dw2.c:746-808 | each operation on one operand leaves what DWARF version 4, section 2.5.1, says: the bytes of memory at the address, the magnitude, the negative or the complement of the word, or its sum with a constant |
| StackStandard.BinaryIsRight | libgcceh/unwind-dw2.c:810-893 | the same for two operands: sums, differences and products modulo 2^64, truncating division, the remainder of words, shifts as products and quotients with powers of two, each bit of and, or and xor, and the six comparisons of signed words |
| StackStandard.ExecuteIsRight | libgcceh/unwind-dw2.c:524-930 | every operation that does not jump does to the stack, by positions, what the standard says, and traps where it is not allowed |
| StackStandard.StepIsRight | libgcceh/unwind-dw2.c:517-930 | the same from the bytes of the operation, and on to the next one |
| StackStandard.JumpIsRight | libgcceh/unwind-dw2.c:896-910 | skip jumps by the signed distance that is written, and bra does exactly if the top, which it takes off, is not zero |
| StackStandard.UnknownAborts | libgcceh/unwind-dw2.c:915-917 | all other operations abort |
| StackMachine.DecodeSpelled | libgcceh/unwind-dw2.c:524-926 | every operation, encoded as the standard says, decodes to itself and to the address after it: constants in any of their spellings, registers, jumps and all others |
| StackMachine.PostfixPushesValue | libgcceh/unwind-dw2.c:746-893 | the postfix form of any tree that fits pushes the value of the tree, left operand first, and leaves lower entries alone; it traps exactly when the tree has no value |
| StackMachine.TreeProgram | libgcceh/unwind-dw2.c:513-930 | executing the bytes of a tree that fits in the 63 free slots, its constants spelled in any way, returns the value of the tree |
| StackStandard.TreeIsRight | libgcceh/unwind-dw2.c:513-930 | executing the bytes of a tree that fits gives the value that the standard gives to its operations, or traps if that is undefined |
| StackMachine.EvalIsModular | libgcceh/unwind-dw2.c:790-858 | trees of sums, differences, products and negations have their integer value modulo 2^64 |
| StackMachine.DivisionTruncates | libgcceh/unwind-dw2.c:841-843 | the signed quotient leaves a remainder smaller than the divisor with the sign of the dividend |
| StackMachine.ShiftRightRoundsDown | libgcceh/unwind-dw2.c:862-867 | shifting right, signed or not, rounds down |
| Words.BitwiseIsBitwise | libgcceh/unwind-dw2.c:838-870 | each bit of and, or and xor depends on that bit of the operands |
| StackMachine.ForwardJumpsTerminate | libgcceh/unwind-dw2.c:896-910 | when all jumps between the places where operations begin lead forward, a program ends within as many operations as it has bytes |
| Guard.StepRefinesCell | libcxxrt/guard.cc:118-193 | every atomic step of either layout does nothing visible or is a step of the once-cell, with abort going back to idle |
| Guard.StepKeepsInvariant | libcxxrt/guard.cc:118-193 | every atomic step keeps the invariant: the lock is held by its one owner, and the words are as its next step needs them |
| Guard.EveryRunIsSafe | libcxxrt/guard.cc:118-193 | in every interleaving no assertion fails, at most one thread is building, and the lock is set if and only if a thread owns it |
| Guard.EveryRunInitialisesOnce | libcxxrt/guard.cc:113-163 | in every interleaving acquire returns 0 only after a constructor completed, nothing but that happens afterwards, and two acquires return 1 only if the first constructor threw in between |
| Guard.FirstByteTells | libcxxrt/guard.cc:69-111 | in every interleaving the first byte of the guard in memory is 1 if a constructor completed and its thread has released the guard, and else 0; the lock is in the last byte, in all five layouts |
| Guard.InitialisedForever | libcxxrt/guard.cc:176-193 | the init flag is never cleared, and after it is set no acquire returns 1 |
| Guard.OwnerFreesLock | libcxxrt/guard.cc:165-193 | the owner of the lock can always let go of it by its own steps |
| Guard.NeverStuck | libcxxrt/guard.cc:127-163 | from every reachable state any pending acquire can return within eight steps |
| Guard.InitialisedNeverWaits | libcxxrt/guard.cc:113-163 | once the object is initialised, from every reachable state a pending acquire returns 0 within three steps of its own thread, whatever the others do or do not, and one that was just called with its first read |
| CatchDiscipline.NothingIsLost | libcxxrt/exception.cc:1189-1322 | in every legal run each exception thrown is in flight, or has an open handler, or was released, and those released are neither and were released once |
| CatchDiscipline.RethrownSurvives | libcxxrt/exception.cc:816-865 | a rethrown exception may leave any number of handlers: it is not released and can be caught again |
| CaughtExceptions.HandlerCountsAreOpenHandlers | libcxxrt/exception.cc:1200-1235 | the magnitude of a handler count is the number of open handlers, negative while a rethrow is pending; the caught list has those with open handlers, each once |
| CaughtExceptions.Globals.Throw | libcxxrt/exception.cc:759-791 | a new exception is in flight, with no handler |
| CaughtExceptions.Globals.BeginCatch | libcxxrt/exception.cc:1189-1240 | opens a handler for an exception in flight, and keeps all counts and the list right |
| CaughtExceptions.Globals.EndCatch | libcxxrt/exception.cc:1264-1322 | closes the innermost handler, and releases its exception exactly when that was its last one and no rethrow is pending; without a caught exception the assertion fails |
| CaughtExceptions.Globals.Rethrow | libcxxrt/exception.cc:825-865 | goes on exactly when there is a caught exception that is not already being rethrown, and puts it in flight |
| CaughtRuns.Play | libcxxrt/exception.cc:825-1322 | in every legal sequence of throwing, catching, leaving handlers and rethrowing, exceptions are released as the language says and in that order, and at the end the counts and the caught list are those of the open handlers |
| ExceptionRefs.StepIsCounted | libcxxrt/exception.cc:619-644 | every atomic step keeps the counter equal to the references held |
| ExceptionRefs.EveryRunCounts | libcxxrt/exception.cc:759-816 | in every interleaving the counter is one for the thrower, plus the handles, plus the dependent exceptions; the destructor runs at most once and never while a reference is held |
| ExceptionRefs.LastReferenceDestroys | libcxxrt/exception.cc:619-633 | the destructor falls to the very thread whose step gives up the last reference |
| ExceptionRefs.OnlyDestroyRemains | libcxxrt/exception.cc:599-617 | after that nothing but the one destructor call can happen |
| Upcast.Upcast | libcxxrt/dynamic_cast.cc:110-184 | the recursion and the loop over bases succeed as their description says, and leave the pointer unchanged on failure |
| Upcast.UpcastIsFirstPath | libcxxrt/dynamic_cast.cc:110-184 | over any inheritance graph an upcast succeeds if and only if the target is the class or one of its bases, near or far, and then adds the offsets, virtual ones from the object's table, along the first path in declaration order |
| Upcast.UpcastAddsOffsets | libcxxrt/typeinfo.h:197-205 | along that path it adds up what the program declares: the signed offset of each base, or, for a virtual base, the signed word at that place from the virtual table of the object reached so far, modulo 2^64 |
| Upcast.FirstPathIsUnique | libcxxrt/dynamic_cast.cc:146-183 | there is only one first path |
| Upcast.CastIsUpcast | libcxxrt/dynamic_cast.cc:92-144 | `cast_to` gives the upcast pointer or null, for all three kinds of class |

## Left out

- FdeObject.FdeObject.SearchObject: the three comparison functions and the three binary searches are one
  method each, which reads every FDE with the encoding that its variant would use.
- FdeObject.FdeObject.InitObject: the sorted array is copied into the object as a value when it is stored,
  since nothing changes it afterwards; freeing the erratic array is not modelled.
- FdeSort.FrameHeapsort: indices are unbounded; the source mixes `int` and `size_t`.
- FdeRegistry.Registry.FindFde: the mutex is not modelled; all operations run under it, one at a time. Tables
  are given as lists of records; TableIsFound gives that list for a table written in memory.
- FdeRegistry.Registry.Deregister: only as far as the object that is handed back; `free` is not modelled.
- CaughtExceptions.Globals.Throw: `uncaughtExceptions`, the handlers of the thread and the unwinder itself
  are not modelled; when a handler is entered and left is up to the caller.
- CaughtExceptions.Globals.BeginCatch: native exceptions only. Foreign exceptions, thread exit and
  termination support no clean invariant.
- ExceptionRefs.EveryRunCounts: the counter is unbounded.
- FrameState.UwFrameStateFor: the fallback for frames without unwind information is not modelled; an
  address that wraps around in the middle of a read is not either.
- CfaTable.Change: signed products wrap around where the source leaves overflow undefined.
- StackMachine.ExecuteStackOp: does a given number of operations at most, since a program may jump backwards
  forever; ForwardJumpsTerminate says when that bound does not matter.
- PointerEncoding.ReadEncoded: memory is zero beyond the bytes given instead of faulting, and is read in
  little-endian order.
- Guard.Next: reads and writes of the guard words are sequentially consistent; a constructor that enters its
  own guard again is left out, as it waits for itself.
- Upcast.DoUpcast: access and ambiguity are not checked, as the source does not check them either.
- The two-phase raise, context installation, inline assembly and the ARM branches.
- `uw_update_context`, which applies the rules to a context: mostly one case per kind of rule.
- The reader of language-specific data areas and call sites in `dwarf_eh.h`.
- `__cxa_finalize`, the emergency buffers, the demangler, and the mathematical library: easy, or with little
  to state.
