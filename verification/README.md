# Verified core of a small operating system

This project models the hard parts of the system in Dafny 4.11 and proves what they are for: a
WebAssembly compile pipeline and its interpreter, a lock-free queue, a RAM file system, a page and
slab allocator, an archive codec, and raster arithmetic. Verify everything with `dafny verify
dfyconfig.toml`.

## What is modelled

**WebAssembly (`Wasm*.dfy`).** `WasmSource` gives a function body its meaning: a structured stack
machine with labels, in the manner of chapter 4 of the WebAssembly Core Specification 2.0.
`WasmTranslate` is the translation loop of `generate` (type stack, block stack, one slot number per
instruction), `WasmOptimize` its three in-place passes (fusion, compaction, branch targets), and
`WasmSlots` the interpreter, in which every unchecked index is checked and a miss is the outcome
`Wrong`. `WasmTyping` says which bodies are well typed, in the manner of sections 3.3 and 7.3 of the
WebAssembly Core Specification 2.0 and without the translator, and `WasmValidation` that the translator accepts exactly
those and rejects every other body for its first fault. `WasmArith` says what the numeric
instructions compute without the functions that compute it: residues, signed readings, quotients,
the bit at every position (`BitPositions`) and every byte read or written. `WasmRefinement` proves
that the compiled code of every accepted function returns and traps exactly as the body does.
`WasmSafety` proves that no accepted function can leave the value stack, the locals, the globals or
the code. Two conditions are not checked by `generate` and are stated as such: branches that do not
reach below their block (`WellHeighted`, section 7.3 of the WebAssembly Core
Specification 2.0; `BranchBelowIsAccepted`
is an accepted function that does) and fused pairs whose halves use the same slot (`FusionAligned`).
The second is a real limit of the code: `drop` emits nothing, so a constant that is dropped can be
fused with the next operation. `DropIsMiscompiled` is such a function (it returns 5 where the body
means 3), and `FusionIsRightWithoutDrops` proves for every accepted function that all its fused
pairs do what their halves do, in every state, if and only if nothing is dropped inside a pair. An
explicit `return` with no value on the stack is the other unchecked case: `BareReturnGoesWrong` is
an accepted function that leaves its value stack in the first step, and `ReturnsDecideSafety` proves
that a function's code is in range if and only if its returns have their values. `WasmLinear` is
linear memory as an object.

**Queue and locks (`Fifo`, `EventQueue`, `RwLock`).** Transition systems: every atomic access is one
step, what a thread has loaded sits in its program counter and may be stale, weak exchanges may fail
spuriously, and the theorems are about every run of any number of threads. `FifoCalls` keeps a
ledger of all calls of a run and says how each ends; `FifoAlone` says that a call nobody interferes
with ends, and does what the operation of a bounded queue does. `FifoStale` is a run of two
producers in which a stale tail makes one of them answer "full" to an empty ring.

**File system (`Paths`, `RamTree`, `RamDirectory`, `RamDriver`, `FileManager`, `FileHistory`,
`FileData`).** The driver is a class with the entities, the inode table with its dead weak
references, the counter and the open handles. A ghost map from inodes to paths is what makes the
entries a tree. `rename` of the driver looks for no cycle; `TreeExactlyWithoutPrefix` proves that
the result is a tree if and only if the new directory is not below what moves, and
`FileManager.Rename` that the string comparison of closed canonical paths is enough to ensure it.
Every refusal is given in terms of the paths that exist. `FileHistory` is about whole histories of
commands.

**Memory (`Bits`, `Pages`, `Slab`, `MemoryManager`, `MemoryHistory`).** The page allocator works on
packed 64-bit words and the slab caches on free lists threaded through a memory of words; the larger
classes keep their list nodes in 16-byte blocks, and that memory is the same memory clients write
to. `MemoryHistory` is about whole histories of allocation and release, with the exact condition of
every refusal and of every panic. No operation of the slab writes where a client holds memory
(`Kept`).

**Codecs and raster (`Leb128`, `Archive`, `Line`, `Blit`).** Encoders and decoders with their round
trips, Bresenham lines, clipping, the copy with its fast path and the copy turned clockwise.
`Utf8Text` is the encoding of the names. `Wrappers` and `Geometry` hold the datatypes that several
modules share.

## Where code and expectation differ

- A `drop` between the halves of a fused pair is miscompiled (above).
- Bulk memory operations refuse a range that ends with the last byte (`LimitIsStrict`); section
  4.4.7 of the WebAssembly Core Specification 2.0 allows it.
- With a memory of no pages the limit of a multi-byte access wraps around and every such access
  passes its test (`EmptyMemoryIsWild`); scalar access is defined for all operands if and only if
  there is a page (`DefinedExactlyWithPages`).
- A RAM file write truncates at its offset, even when nothing is written (`WriteTruncates`).
- The closed form of the root path is `//`, a prefix of nothing but itself (`ClosedPrefix`).
- Calling the archive iterator again after the end entry panics (`CallAfterEndPanics`).
- Signed division of the least i32 by -1 gives the least i32 (`LeastByMinusOne`); section 4.3.2 of
  the WebAssembly Core Specification 2.0 makes it a trap.
- The turned copy's source index steps once below zero behind the last pixel of a column if and only
  if the clip begins in the source's first row (`LastStepUnderflows`): it wraps unread, or panics
  where overflow is checked. The model's index is an integer and reads no pixel there.

## Model

| member | source | states |
|---|---|---|
| WasmTranslate.TranslateBody | lib/wasm/src/wasm.rs:2379-4464 | the loop succeeds exactly when some function-level end is accepted, and then holds the state of that prefix; otherwise the error is the first the loop meets, that of the checks behind it, or a missing end |
| WasmStatic.TranslateStructured | lib/wasm/src/wasm.rs:2406-2597 | every instruction keeps block ids, markers and branch targets in range, markers unique, and ended blocks closed |
| WasmStatic.TranslateStacked | lib/wasm/src/wasm.rs:2379-4464 | every emitted instruction's slots lie below the maximum stack height, and a conditional branch stands no higher than what precedes it leaves |
| WasmOptimize.PairsAreDisjoint | lib/wasm/src/wasm.rs:4466-4566 | the second half of a pair never starts another, fused or not, so the sweep over the changing array is well defined |
| WasmOptimize.Fuse | lib/wasm/src/wasm.rs:4466-4566 | the in-place sweep equals the pointwise definition on the original code |
| WasmOptimize.Compact | lib/wasm/src/wasm.rs:4568-4596 | the array holds exactly the kept instructions in order, and each block's start and end are the counts kept before its markers |
| WasmOptimize.FixBranches | lib/wasm/src/wasm.rs:4598-4606 | every branch target of every form, and nothing else, is replaced by its block's position |
| WasmOptimize.AdjustBranchTarget | lib/wasm/src/intcode.rs:265-332 | a branch table is rebuilt entry by entry, all other forms hold one target or none |
| WasmGenerate.PreferredTargets | lib/wasm/src/wasm.rs:4638-4647 | loops are entered at the start, other blocks left at the end |
| WasmGenerate.Generate | lib/wasm/src/wasm.rs:2345-4616 | a body is compiled exactly if it is well typed, and the result is the fused, compacted, retargeted code; otherwise it is rejected for its first fault |
| WasmValidation.AcceptedIffTyped | lib/wasm/src/wasm.rs:2379-4464 | a body is accepted if and only if signatures and block contexts lead to its function-level end with the results on the stack |
| WasmValidation.RejectedForTheFault | lib/wasm/src/wasm.rs:2379-4464 | a body is rejected with an error if and only if that is the first fault: immediates, then too few operands, then operands no signature takes, and at the end the results |
| WasmValidation.TypedOrOneFault | lib/wasm/src/wasm.rs:2379-4464 | every body is well typed or has one first fault, never both |
| WasmValidation.PlainTypes | lib/wasm/src/wasm.rs:2656-4464 | the type checks of every plain instruction are those of its signature |
| WasmFunction.SlotsAreTheMaximum | lib/wasm/src/wasm.rs:2380-2380 | the value stack is as large as the operand stack ever gets, and no larger |
| WasmOptimize.WhatFuses | lib/wasm/src/wasm.rs:4466-4566 | the pairs that fuse: constants with their use, tests for zero and comparisons with their branch |
| WasmArith.BinaryStep | lib/wasm/src/intr.rs:414-822 | one interpreter step of a binary instruction traps exactly on a zero divisor, and otherwise leaves the residue, quotient, remainder, bits, shifted bits or truth of its operands |
| WasmArith.UnaryStep | lib/wasm/src/intr.rs:408-867 | tests for zero, wrapping, and extension that keeps the signed or unsigned reading |
| WasmArith.LoadStep | lib/wasm/src/intr.rs:199-276 | every byte of the cell: from memory in little-endian order, a copy of the sign, or zero; a trap exactly outside the memory |
| WasmArith.StoreStep | lib/wasm/src/intr.rs:277-352 | every byte of the memory: the cell's low bytes in order, or as it was; a trap exactly outside the memory |
| WasmArith.ReturnStep | lib/wasm/src/intr.rs:126-130 | the result is the cell, reduced to its lower half for an i32 |
| WasmArith.MemoryStep | lib/wasm/src/intr.rs:354-361 | the size in pages; growth by a signed number of zeroed pages answers the old size, or -1 with nothing changed |
| WasmArith.ImmediateStep32 | lib/wasm/src/intr.rs:879-927 | the fused forms give what the instruction gives with the immediate as its right operand |
| WasmArith.ImmediateStep64 | lib/wasm/src/intr.rs:932-944 | the same for the two 64-bit forms |
| WasmArith.BranchStep | lib/wasm/src/intr.rs:107-115 | conditional branches are taken exactly if the cell is not zero, fused ones exactly if it is |
| WasmArith.CompareBranchStep | lib/wasm/src/intr.rs:956-1063 | a fused comparison branches exactly if the comparison holds of the cells |
| WasmArith.LeastByMinusOne | lib/wasm/src/intr.rs:516-527 | the least i32 divided by -1 is itself, without a trap |
| WasmArith.BinaryMeaning | lib/wasm/src/intr.rs:414-822 | the stack machine's step of a binary instruction, in the same terms |
| WasmArith.UnaryMeaning | lib/wasm/src/intr.rs:408-867 | the stack machine's step of a unary instruction, in the same terms |
| WasmArith.LoadMeaning | lib/wasm/src/intr.rs:199-276 | the stack machine's loads, byte by byte |
| WasmArith.StoreMeaning | lib/wasm/src/intr.rs:277-352 | the stack machine's stores, byte by byte |
| WasmArith.MeaningIsUnique | lib/wasm/src/intr.rs:414-822 | what a binary instruction means leaves one result |
| WasmArith.LoadIsUnique | lib/wasm/src/intr.rs:199-276 | what a load means leaves one result |
| WasmGenerate.TargetsCountTheKept | lib/wasm/src/wasm.rs:4568-4606 | every block has one marker, and its target is the number of instructions kept before it, inside the code |
| WasmGenerate.AlignedMeansNoDrop | lib/wasm/src/wasm.rs:2658-2660 | fused pairs use matching slots if and only if nothing is dropped between the halves |
| WasmFunction.MatchFinds | lib/wasm/src/wasm.rs:2518-2547 | scanning for the end of an open block finds the instruction at which the translator closes it |
| WasmCorrect.ArmIsExec | lib/wasm/src/intr.rs:150-1065 | each interpreter arm leaves in the slots what the instruction means on its operands |
| WasmCorrect.PlainSim | lib/wasm/src/intr.rs:86-1065 | a plain instruction outside a pair is one matching interpreter step |
| WasmCorrect.BranchSim | lib/wasm/src/intr.rs:104-128 | a branch lands at related states in both machines, for loops and blocks |
| WasmCorrect.BrTableSim | lib/wasm/src/intr.rs:116-128 | a branch table selects the same label, clamped to the last entry |
| WasmPairs.OpenPairSim | lib/wasm/src/wasm.rs:4466-4566 | the first half of a pair costs no step and its result is owed by the slots |
| WasmPairs.ClosePairSim | lib/wasm/src/wasm.rs:4466-4566 | the second half pays with one step: set-constant, immediate and compare-and-branch forms |
| WasmRefinement.StepSim | lib/wasm/src/intr.rs:86-1065 | one instruction of the body is at most one interpreter step, from every related pair of states |
| WasmRefinement.CompilationPreservesMeaning | lib/wasm/src/wasm.rs:4466-4606 | same results, same traps, same locals, globals and memory, same divergence, for every function and every heap, where the upper halves of 32-bit cells are zero; neither run goes wrong |
| WasmExamples.BranchBelowIsAccepted | lib/wasm/src/wasm.rs:2549-2560 | an accepted function with a branch below its block's height: its body has no meaning there, its compiled code returns 1 |
| WasmSafety.CodeIsSafe | lib/wasm/src/wasm.rs:2379-4606 | every slot, local, global and target of the final code is in range, and only the last instruction lacks a successor |
| WasmSafety.InterpreterStaysInside | lib/wasm/src/intr.rs:79-1070 | every run of an accepted function stays in range, aligned or not |
| WasmSafety.ReturnsDecideSafety | lib/wasm/src/wasm.rs:2599-2607 | all indices are in range if and only if every explicit return has its value |
| WasmSafety.BareReturnGoesWrong | lib/wasm/src/wasm.rs:2599-2607 | an accepted function whose first step reads outside the value stack, in every heap |
| WasmFusion.FusionIsExact | lib/wasm/src/wasm.rs:4466-4566 | a fused pair equals its two halves in every state of a function if and only if it is aligned |
| WasmFusion.PairsAreAdjacent | lib/wasm/src/wasm.rs:2379-4464 | in every accepted function the second half of a pair stands no higher than the first leaves the stack, with slots and locals in range |
| WasmFusion.FusionIsRightWithoutDrops | lib/wasm/src/wasm.rs:4466-4566 | for every accepted function, all fused pairs equal their halves in every state if and only if nothing is dropped inside a pair |
| WasmFusion.SumIsCallable | lib/wasm/src/wasm.rs:4466-4566 | a function with a fused pair meets every condition of the preservation theorem |
| WasmFusion.DropIsMiscompiled | lib/wasm/src/wasm.rs:4466-4566 | an accepted function whose compiled code returns another result than its body |
| WasmLinear.AccessIsExact | lib/wasm/src/wasm.rs:1198-1270 | with a page, an access succeeds exactly when it ends inside the memory |
| WasmLinear.EmptyMemoryIsWild | lib/wasm/src/wasm.rs:1227-1231 | without a page every multi-byte load and store, at any offset and index, passes the wrapped limit |
| WasmLinear.DefinedExactlyWithPages | lib/wasm/src/wasm.rs:1198-1270 | loads and stores are defined for all operands if and only if the memory has a page |
| WasmLinear.StoreThenLoad | lib/wasm/src/wasm.rs:1212-1270 | a store is read back by a load of its width and changes no other byte |
| WasmLinear.LoadThenStore | lib/wasm/src/wasm.rs:1212-1270 | storing back what was loaded changes nothing |
| WasmLinear.GrowKeepsLoads | lib/wasm/src/wasm.rs:1064-1079 | a load that succeeded returns the same after any growth |
| WasmLinear.LimitIsStrict | lib/wasm/src/wasm.rs:1081-1195 | the bulk test admits exactly the ranges that end before the last byte |
| WasmLinear.LinearMemory.Grow | lib/wasm/src/wasm.rs:1064-1079 | contents kept, zeros appended, whole pages, the old size or -1 |
| WasmLinear.LinearMemory.Store | lib/wasm/src/wasm.rs:1219-1270 | success exactly inside, value readable, all other bytes unchanged |
| WasmLinear.LinearMemory.WriteSlice | lib/wasm/src/wasm.rs:1141-1156 | the bytes are written or nothing is |
| WasmLinear.LinearMemory.WriteBytes | lib/wasm/src/wasm.rs:1158-1174 | the range is filled or nothing is |
| WasmLinear.LinearMemory.Copy | lib/wasm/src/wasm.rs:1176-1195 | overlapping ranges copy as if read first; nothing outside changes |
| Fifo.AccessKeeps | system/src/sync/fifo.rs:138-194 | every atomic access by any thread, with any spurious failure, keeps the ring's invariant |
| Fifo.RingIsSafe | system/src/sync/fifo.rs:138-194 | in every interleaving: exactly-once, in-order hand-over, bounded length, no slot shared by two threads |
| Fifo.ActionRefines | system/src/sync/fifo.rs:138-194 | each action appends one value, takes the oldest, or leaves the queue alone |
| FifoCalls.CallsEndRightly | system/src/sync/fifo.rs:138-194 | in every run each started enqueue is in flight with its datum, was refused with it and claimed nothing, or was stored and stands at the one position it claimed; each dequeue is in flight, found nothing, or returned what was claimed at the one position it took; no position is claimed or taken twice |
| FifoCalls.StartsAreRecorded | system/src/sync/fifo.rs:129-136 | every call that is made starts one entry of the ledger, and answers are final |
| FifoCalls.RefusedOnlyIfFullOrStale | system/src/sync/fifo.rs:138-150 | in every run a producer is refused only if the ring is full at that step, or consumers have passed the tail it loaded in that call |
| FifoCalls.NothingOnlyIfEmptyOrStale | system/src/sync/fifo.rs:167-175 | a consumer is told "empty" only if the ring is, or the head it loaded in that call is a lap behind |
| FifoAlone.EnqueueAlone | system/src/sync/fifo.rs:138-164 | without interference an enqueue appends its datum, or is refused exactly if the ring is full, with nothing changed |
| FifoAlone.DequeueAlone | system/src/sync/fifo.rs:167-194 | without interference a dequeue returns and removes the oldest value, or finds nothing exactly if the ring is empty |
| FifoAlone.CallsFinishAlone | system/src/sync/fifo.rs:138-194 | whatever has gone before, a call that is left alone is over after at most nine accesses |
| Fifo.ReturnsWhatItTook | system/src/sync/fifo.rs:167-194 | the consumer that took position p returns the value claimed at p, once |
| Fifo.FullIsExact | system/src/sync/fifo.rs:138-150 | with one producer "full" is given exactly when no slot is left, which is at least the capacity asked for |
| FifoStale.FullCanBeSpurious | system/src/sync/fifo.rs:138-150 | a run of two producers in which a stale tail gives "full" while the ring is empty and has room |
| Fifo.LapBits | system/src/sync/fifo.rs:109-127 | the ring is the least power of two above the capacity |
| EventQueue.EmptyIsExact | system/src/sync/fifo.rs:167-180 | with one consumer "empty" is given exactly when the queue is empty |
| EventQueue.NoEventStranded | system/src/sync/fifo.rs:28-47 | in every history undelivered events are covered by the semaphore, posts in progress and a woken consumer |
| EventQueue.SemaphoreBalances | system/src/sync/semaphore.rs:36-40 | in every history the semaphore is the signals given less the waits left, and with the producers still to signal every claimed position is signalled exactly once |
| EventQueue.WaitsExactlyAtZero | system/src/sync/semaphore.rs:36-40 | an attempt fails exactly if the semaphore is zero |
| EventQueue.WaitingConsumerGetsOldest | system/src/sync/fifo.rs:36-47 | a waiting consumer with an event in the queue finds a signal, and returns the oldest event |
| EventQueue.AskingConsumerGetsOldest | system/src/sync/fifo.rs:36-47 | a consumer that asks gets the oldest event, or waits if there is none |
| EventQueue.PostAlone | system/src/sync/fifo.rs:26-29 | a post appends its event and signals once, or hands it back and does not |
| RwLock.RunKeeps | system/src/sync/rwlock.rs:227-270 | every interleaving keeps the word equal to twice the readers plus the writer, one writer, and a writer alone |
| RwLock.AttemptsAreExact | system/src/sync/rwlock.rs:227-250 | an attempt succeeds exactly when the guards held allow it |
| RwLock.FreeIsSignalled | system/src/sync/rwlock.rs:252-270 | a release that leaves the lock free is followed by a signal, unless somebody takes the lock before |
| Paths.EmptyAndDotAreNothing | system/src/fs/filesys.rs:128-130 | an empty component or "." can be left out anywhere |
| Paths.DotDotCancels | system/src/fs/filesys.rs:131-132 | a component and the ".." behind it cancel, anywhere |
| Paths.OneStep | system/src/fs/filesys.rs:121-139 | from a canonical directory ".." is its parent, the root its own, a name its child; an absolute path does not depend on the directory |
| Paths.CanonComposes | system/src/fs/filesys.rs:121-139 | walking in two steps is walking the joined path |
| Paths.CanonicalPathComponents | system/src/fs/filesys.rs:121-139 | the loop computes the fold of the components and leaves no empty, "." or ".." component |
| Paths.CanonJoin | system/src/fs/filesys.rs:113-139 | canonicalising a joined canonical path, closed or not, is the identity |
| Paths.CanonRelative | system/src/fs/filesys.rs:121-139 | a relative path is its components walked from the base |
| Paths.ClosedPrefix | system/src/fs/filesys.rs:309-318 | string prefix of closed paths is component prefix, and equal strings are equal paths |
| Paths.KeyMatches | system/src/fs/filesys.rs:157-172 | a mount key matches only at a component boundary |
| Paths.LaterIsLonger | system/src/fs/filesys.rs:163-168 | of two matching keys the lexicographically later is the longer |
| Paths.FindMount | system/src/fs/filesys.rs:163-168 | searching the ordered keys from the last finds the longest match, if there is one |
| Paths.ResolvedBelowMount | system/src/fs/filesys.rs:174-176 | what is resolved in the driver is the path below the mount point |
| RamTree.WalkExact | system/src/fs/ramfs.rs:131-140 | resolution arrives at an inode exactly when it has that path |
| RamTree.TreeMeans | system/src/fs/ramfs.rs:49-84 | names unique, one parent entry per inode, everything reachable, no cycles |
| RamTree.AddKeeps | system/src/fs/ramfs.rs:481-499 | a new entry keeps the tree and adds one path |
| RamTree.UnlinkKeeps | system/src/fs/ramfs.rs:162-177 | removing a leaf entry keeps the tree and takes away one path |
| RamTree.MoveKeeps | system/src/fs/ramfs.rs:179-265 | a rename keeps the tree and rewrites exactly the paths through the old place |
| RamTree.TreeExactlyWithoutPrefix | system/src/fs/ramfs.rs:222-265 | the driver's rename leaves a tree if and only if the new directory is not below what moves |
| RamDirectory.RenameMeans | system/src/fs/ramfs.rs:531-541 | renaming in place replaces any entry of the new name and keeps names unique |
| RamDirectory.ReplaceMeans | system/src/fs/ramfs.rs:543-556 | appending or replacing holds the entry once and keeps the others |
| RamDirectory.RemoveMeans | system/src/fs/ramfs.rs:522-529 | removal takes the named entry and no other |
| RamDriver.RamFs.GetEntity | system/src/fs/ramfs.rs:89-101 | alive exactly if the entity is; a dead table entry is cleaned away |
| RamDriver.RamFs.NextInode | system/src/fs/ramfs.rs:77-84 | numbers only go up; refused exactly at the quota |
| RamDriver.RamFs.MakeNode | system/src/fs/ramfs.rs:49-74 | succeeds exactly for a new name in a directory with room; then one new inode with a fresh number at the path; each error exactly in its case; otherwise unchanged |
| RamDriver.RamFs.Unlink | system/src/fs/ramfs.rs:162-177 | a leaf goes with its path, its entity and table entry only if not held open; a non-empty directory is refused |
| RamDriver.RamFs.Rename | system/src/fs/ramfs.rs:179-265 | every path through the old entry goes through the new one, the replaced leaf leaves the tree, no content changes; succeeds exactly if the source exists and the new name is free or a leaf, and each error is given exactly in its case |
| RamDriver.RamFs.Close | system/src/fs/ramfs.rs:559-561 | an unlinked file goes with its last handle |
| FileManager.FileManager.FindDriver | system/src/fs/filesys.rs:157-182 | the root driver serves exactly the paths no other mount covers, under their own components |
| FileManager.FileManager.ResolveParent | system/src/fs/filesys.rs:185-212 | the directory found has the parent's path, with the walk's own error otherwise |
| FileManager.FileManager.Mkdir | system/src/fs/filesys.rs:267-274 | one new empty directory at the canonical path, exactly if its parent resolves, the name is free and the table has room; otherwise nothing changed, and the error is what is wrong first: the mount, a file on the way, no parent, the name taken, the quota |
| FileManager.FileManager.Creat | system/src/fs/filesys.rs:251-265 | one new empty file at the canonical path, held open, under the same exact condition; otherwise nothing changed |
| FileManager.FileManager.Open | system/src/fs/filesys.rs:232-249 | a handle on the file at the path, exactly if the path names one; directories refused; otherwise "not a directory" exactly if a file is on the way; the tree unchanged |
| FileManager.FileManager.WalkFails | system/src/fs/filesys.rs:185-212 | resolution fails exactly where nothing has the path, with "not a directory" exactly if a file is on the way |
| FileManager.FileManager.Unlink | system/src/fs/filesys.rs:292-299 | exactly the path is gone; succeeds exactly if it names a leaf; each error exactly in its case |
| FileManager.FileManager.Rename | system/src/fs/filesys.rs:309-348 | renaming to itself does nothing, below itself is refused, otherwise it succeeds exactly if the ends resolve and the destination is free or a leaf, and then exactly the paths through the source move; each error exactly in its case |
| FileHistory.Replay | system/src/fs/filesys.rs:232-348 | every command is answered, and changes entries, paths, handles and counter, by its own effect on the state it met; every state in between is in order, and the last is a tree; the inodes its mkdir and creat commands were answered with are ever new |
| FileHistory.CreationsRise | system/src/fs/ramfs.rs:77-84 | in every history of such effects the created inodes are numbered upwards, past everything there at the start |
| FileData.RamFile.Write | system/src/fs/ramfs.rs:364-397 | content truncated at the offset and continued with the data; quota exactly beyond the size limit |
| FileData.FileControlBlock.ReadToEnd | system/src/fs/filesys.rs:597-628 | terminates with everything from the position to the end, and with nothing at a position outside the file |
| FileData.WriteThenRead | system/src/fs/filesys.rs:557-640 | any chunking of data up to the limit reads back as its concatenation |
| FileData.WriteTruncates | system/src/fs/ramfs.rs:380-382 | a write that does not reach the old end shortens the file |
| Pages.PackFields | system/src/mem/mm.rs:338-360 | packing and splitting are inverse for 32-bit fields |
| Pages.RoundUpIsLeast | system/src/mem/mm.rs:163-164 | masking gives the least whole number of pages |
| Pages.PageAllocator.constructor | system/src/mem/mm.rs:62-84 | the listed pages are exactly the available regions and the counter counts them |
| Pages.PageAllocator.PgAlloc | system/src/mem/mm.rs:158-178 | the first pages of the first region that is long enough become live, or refusal exactly for alignment or when no region is |
| Pages.PageAllocator.PgDealloc | system/src/mem/mm.rs:180-203 | the pages join the first region they adjoin, else the end of the list, else are lost with the list full; listed, live and lost stay a partition of the boot pages and the counters exact |
| Pages.PageAllocator.TryMerge | system/src/mem/mm.rs:373-388 | merges exactly with an adjoining region, on either side, conserving pages |
| Slab.Push16 | system/src/mem/slab.rs:243-262 | freeing a 16-byte block keeps every free list |
| Slab.PopBig | system/src/mem/slab.rs:215-239 | taking a block of a larger class frees its node and keeps every list |
| Slab.ClientWrites | system/src/mem/slab.rs:72-103 | whatever is written inside a client's block leaves all lists intact |
| Slab.HeldWrites | system/src/mem/mm.rs:254-257 | whatever is written where clients hold blocks or pages leaves all lists intact |
| Slab.BlocksApart | system/src/mem/slab.rs:170-189 | blocks of any two classes never overlap |
| Slab.TotalIsFreePlusUsed | system/src/mem/slab.rs:133-189 | in every class total is free plus in use |
| Slab.SixteenByteUse | system/src/mem/slab.rs:105-131 | 16-byte blocks in use are what clients hold plus one node per free block of the larger classes |
| MemoryManager.MemoryManager.Expand16 | system/src/mem/slab.rs:170-189 | a page becomes free 16-byte blocks; nothing held changes, nor what it holds |
| MemoryManager.MemoryManager.ExpandBig | system/src/mem/slab.rs:170-189 | a page becomes free blocks of the class, its nodes taken from the 16-byte class |
| MemoryManager.MemoryManager.AllocBig | system/src/mem/slab.rs:213-240 | exactly one more block is held, its node is back in the 16-byte class, and what clients hold keeps its contents |
| MemoryManager.MemoryManager.Zalloc | system/src/mem/mm.rs:226-247 | a block of the layout's size and alignment that nobody held, or whole fresh pages; refused exactly if the class's list is empty with no page left, or no run of pages is long enough; a panic exactly if a new page of the class needs more list nodes than can be had; what clients hold keeps its contents |
| MemoryManager.ClassIsLeast | system/src/mem/slab.rs:27-53 | a layout gets the smallest of 16, 32, ... 2048 bytes that its size and its alignment fit |
| MemoryManager.MemoryManager.Zfree | system/src/mem/mm.rs:254-272 | the block goes back to the class it came from, or the pages to the page allocator, every byte of it overwritten, and what clients still hold keeps its contents; a panic exactly if the class is a larger one, no 16-byte block is free and no page is left |
| MemoryHistory.Replay | system/src/mem/mm.rs:226-272 | in front of every request the holdings are exactly what was granted and not freed, the clients have exactly those, and lists, pages and counters are in order; every refusal and every panic happens exactly when the state it meets has nothing to give; in the end no two holdings share a byte |
| MemoryHistory.HoldingsApart | system/src/mem/slab.rs:27-53 | two holdings of a history, blocks or pages, share no byte |
| MemoryManager.MemoryManager.NothingOverlaps | system/src/mem/slab.rs:27-53 | no two things clients hold overlap |
| MemoryManager.MemoryManager.CountersAddUp | system/src/mem/slab.rs:61-68 | the counters of every class account for every block |
| Leb128.WriteUnsignedLoop | lib/wasm/src/wasm.rs:781-793 | the shifting loop writes the base-128 digits |
| Leb128.UnrolledIsEncode | lib/mar/src/leb128.rs:62-156 | the unrolled encoder writes the same bytes as the loop |
| Leb128.UnrolledIsEncodeSigned | lib/mar/src/leb128.rs:158-257 | the unrolled signed encoder writes the signed base-128 digits |
| Leb128.UnsignedRoundTrip | lib/mar/src/leb128.rs:354-373 | every u64 reads back anywhere in a stream and consumes exactly its bytes |
| Leb128.SignedRoundTrip | lib/mar/src/leb128.rs:375-399 | every i64 reads back anywhere in a stream and consumes exactly its bytes |
| Leb128.EncodingIsMinimal | lib/mar/src/leb128.rs:62-156 | no shorter string of bytes reads as the same value |
| Leb128.SignedEncodingIsMinimal | lib/mar/src/leb128.rs:158-257 | no shorter string of bytes reads as the same signed value |
| Archive.ShortEntryBytes | lib/mar/src/lib.rs:142-170 | the bytes of every kind of entry, literally, when its lengths are single bytes |
| Archive.FinalisedBytes | lib/mar/src/lib.rs:53-134 | the header's bytes, literally, with offset and size in their places, the prefix, and the body with its end |
| Archive.OpenIsExact | lib/mar/src/lib.rs:199-220 | bytes are opened exactly if they have the magic number and contain the body the header names; each error exactly |
| Utf8Text.Utf8Exactly | lib/mar/src/leb128.rs:409-416 | a name is accepted exactly if it encodes some sequence of Unicode scalar values |
| Archive.Writer.WriteUnsigned | lib/mar/src/leb128.rs:62-156 | appends the minimal encoding |
| Archive.Writer.WriteSigned | lib/mar/src/leb128.rs:158-257 | appends the signed encoding |
| Archive.Writer.WriteEntry | lib/mar/src/lib.rs:142-170 | appends the tagged payload of every kind of entry |
| Archive.WriteArchive | lib/mar/src/lib.rs:102-134 | header, prefix and body, exactly if their sizes fit 32 bits |
| Archive.Reader.ReadUnsigned | lib/mar/src/leb128.rs:354-373 | the loop decodes, and moves the position only on success |
| Archive.Reader.ReadSigned | lib/mar/src/leb128.rs:375-399 | the loop decodes with sign extension, and moves the position only on success |
| Archive.Reader.Next | lib/mar/src/lib.rs:242-267 | the next entry, nothing for malformed data, a panic past the last byte, and the position each leaves |
| Archive.PanicsExactlyPastTheEnd | lib/mar/src/lib.rs:242-243 | the iterator panics if and only if no byte is left |
| Archive.CallAfterEndPanics | lib/mar/src/lib.rs:242-267 | in every finalised archive the end entry is last, and one call more panics |
| Archive.ArchiveRoundTrip | lib/mar/src/lib.rs:102-267 | every finalised archive reads back as its entries in order, then the end |
| Line.LineTo | lib/meggl/src/coords.rs:40-82 | max(dx, dy) + 1 points from start to end, one column or row of the longer axis at a time, each within half a pixel and of two such the nearer along the shorter axis, never past either end |
| Line.LineIsUnique | lib/meggl/src/coords.rs:40-82 | there is one such line |
| Line.TurnKeepsClose | lib/meggl/src/coords.rs:66-81 | each turn moves the longer axis and keeps the point within half a pixel |
| Blit.ClippingIsExact | lib/meggl/src/bitmap.rs:1953-2004 | exactly the pixels inside both bitmaps are kept, at their offset |
| Blit.AdjustBltCoords | lib/meggl/src/bitmap.rs:1953-2004 | the interleaved updates are the same five steps on each axis |
| Blit.OneRun | lib/meggl/src/bitmap.rs:792-793 | copying one run equals copying the rows when no gap lies between them |
| Blit.Blt | lib/meggl/src/bitmap.rs:771-802 | every pixel of the clip is the source pixel at its offset, every other pixel unchanged, on both paths |
| Blit.BltCw | lib/meggl/src/bitmap.rs:1066-1097 | logical (x, y) is drawn at physical (W - 1 - y, x), every other pixel unchanged |
| Blit.LastStepUnderflows | lib/meggl/src/bitmap.rs:1066-1097 | the source index passes below zero behind a column if and only if the clip begins in the source's first row |

## Left out

- The integer instructions beyond `BinOp`, `UnOp`, `LoadOp` and `StoreOp`: rotations, bit counts, 8- and
  16-bit sign extension, 16-bit access to an i64, the other 64-bit operations and comparisons. They are
  further cases of the same kinds.
- WebAssembly calls, host functions, `if`/`else`, value-typed blocks, floats, tables and the module
  sections; blocks here have the empty type.
- Upper halves of 32-bit value-stack cells, which the source leaves unspecified: the model fills
  them with zero and copies whole cells. Typed accesses do not read them, but two accepted accesses
  do: `i64.store` takes an i32 datum (lib/wasm/src/wasm.rs:3041-3056), and an explicit `return` is
  not compared with the result type (lib/wasm/src/wasm.rs:2599-2607), so an i32 can be returned as
  an i64.
- 64-bit globals, and the binary decoding of instructions: the translator reads decoded operations.
- Host memory for `memory.grow` is a capacity given with the module; shift counts are taken modulo
  the width.
- WasmRefinement.CompilationPreservesMeaning: assumes aligned pairs and branches within their
  blocks, which `generate` does not check; that the first is what fusion needs is
  `FusionIsRightWithoutDrops`. For bodies that store an i32 with `i64.store`, or return an i32 as an
  i64, it speaks of the model's zero-filled upper halves.
- WasmSafety.InterpreterStaysInside: asks for eight bytes of memory when the module has one, since a
  memory without pages is not protected by its limit test.
- Weak memory orders and wrap-around of 64-bit counters: steps are sequentially consistent and
  counters unbounded.
- Sleeping and waking: only the semaphore's counter is modelled, not the scheduler.
- Drivers other than the RAM file system: they are known by their mount keys only, and a call that
  reaches them answers `OtherDriver`.
- The driver's own locking: each file-system operation is one step.
- `read_dir`, `stat`, `chdir`, `mkdir2`, `truncate` and the cached file size.
- FileData.RamFile.Write: a write beyond the end leaves a gap whose bytes are a parameter, since the
  source does not initialise them.
- Failure to allocate memory for the bytes of an archive; the wrap-around of `position + size` on a
  length field near 2^64, where both readings end in the same error.
- Leb128 numbers of more than ten groups: the shift count is taken modulo 64.
- Concurrent use of the slab (its list has no tag against reuse) and `static_alloc_real`.
- The state behind a panic for want of a list node: when one happens is stated exactly, what it
  leaves is not.
- Machine-word overflow in line and clipping coordinates.
- Circles, blur, transparency, overlapping copies, and everything above the graphics library.
