# NativeOS kernel: heap, tar file system, console and their supporting structures

This project models the stateful core of the NativeOS kernel and proves what its parts promise, for every input and every
sequence of calls.

* **Kernel heap and spinlock.** Memory is a sequence of bytes and every header field is a little-endian word in it. A split
  does not refresh the back link of the block above, so back links go stale and may point at headers that were absorbed long
  ago, at other live blocks, or into the middle of client data. The invariant in `HeapModel` covers all of these: the blocks
  reached by `next` tile the region, anything that looks like an allocated header is one, and a header found through a back
  link that points forward again is the true predecessor. It rests on one fact about bytes: in a heap below 1 GiB (the
  linker script puts 1 MiB just above the kernel image) a header and another header's mark never overlap, because their
  bytes would disagree. `HeapOps` gives the stores in program order, `HeapInvariant` proves that they keep the invariant,
  `HeapBlocks` says what coalesces and what is undone, `HeapRuns` and `HeapHistories` cover whole histories with client
  writes, `KernelHeap` is the imperative code, `HeapStores` lists the words each call stores, `HeapTests` takes the tests of
  `heap_merge` and `heap_free` apart word by word, `HeapSteps` runs a critical section one load of a tested word or one
  store at a time, `HeapClients` shows which client writes meanwhile do not matter, `HeapTearing` and `HeapTorn` prove
  exactly when client writes between two loads of a test can do harm, and `SpinlockedHeap` interleaves any number of
  processors and clients.
* **Tar file system and path resolution.** `TarFormat` is the archive layout of the ustar interchange format, `TarEncoder`
  writes archives in it, `VfsNode` is a node's memory with its name field of 64 bytes, `TarNames` the treatment of names,
  `TarVolume` the mount code with its recursive, memoised construction of nodes and its trimming of names inside the
  archive, `TarTree` the tree that results, `PathWalk` and `PathResolve` the walk from `VOL:/a/b` to a node, `CStrings` the
  C strings and `strsep`, `Vfs` the mount registry, and `TarExample` an archive given byte by byte. `PathResolve.MountAndRead` closes the circle from archive bytes to
  file bytes, with other volumes mounted beside.
* **Virtual console.** `Console` is one framebuffer shared by eight contexts, down to the bytes of each cell. `Terminal`
  gives the eight independent terminals it refines, and the unbounded document each terminal shows the end of.
* **Supporting structures.** `LinkedList` (pointer surgery that refines a sequence), `RingBuffer` (overwrite-oldest queue)
  and `FrameMap` (bit map of page frames that refines a set).

Imperative source is modelled by classes and methods with loops, each proved against a specification function; the lemmas
then speak about that function. A NULL pointer is `0` or `-1`, a node of a mounted archive is named by its entry's position,
and an allocation that may fail is a nondeterministic choice where the source handles the failure.

## Where the code and its documentation differ

* The heap's introduction promises that two consecutive free regions are merged. `HeapBlocks.CoalescingFails` gives five
  calls after which two neighbours are free; `HeapBlocks.CoalescesIffFresh` says exactly when a release coalesces
  completely.
* The allocator's lock is meant to protect the heap, but `heap_merge` loads the four words behind a back link one after
  another, and a stale back link can lead into a buffer in use. A client that writes there between the loads, without ever
  forging a control block, can make the test pass, and `heap_free` then stores into the client's buffer
  (`SpinlockedHeap.UncalmRun` after nine calls). `HeapTorn.TornIff` says exactly which releases are open to this;
  `SpinlockedHeap.Linearizable` holds as long as no client writes to the very header that is being tested.
* `fs_resolve` calls a path without a slash after the colon an error but returns the volume's root
  (`PathResolve.MissingSlashGivesRoot`), and `fs_follow_path` dereferences a missing intermediate node
  (`PathResolve.MissingDirectoryCrashes` on a concrete path; `PathResolve.MountThenResolve` says exactly when).
* A node's name field has 64 bytes and is filled without a limit. A longer base name runs into the flags behind it and is
  then not found under its own name (`PathResolve.LongNameIsLost`); `PathResolve.ResolutionExactIff` says for which archives
  every path leads where it should. From 80 bytes on the copy leaves the node (`TarVolume.Archive.constructor`).
* `strncmp` compares one byte more than it is asked to (`CStrings.StrNCmpZero`, `CStrings.OneByteMore`), and `list_empty`
  releases the first node only (`LinkedList.List.Empty`).
* `lookup_vnode` trims one slash per call, which keeps a name's path exactly when the name does not end in two slashes
  (`TarNames.TrimmedKeepsNormal`, `TarNames.TwoSlashesLost`).
* `reserve_system_block` can miss the last page of a block that is not page-aligned (`FrameMap.ReservesAllTouched`,
  `FrameMap.UnalignedBlockMissesAFrame`), and marks the wrong frames for a block at 16 TiB or above
  (`FrameMap.HighBlockMarksOthers`).
* `vfs_mount` reports success although `list_append` may have dropped the volume or its node; `Vfs.ServeExact` says exactly
  when the two lists stay in step, and `Vfs.OutOfStep` gives a mount after which they do not.
* `ringbuf_alloc` leaves the status word unset (`RingBuffer.RingBuf.constructor` says what it must happen to be), and
  `tarfs_mount` leaves the root pointer unset; the model starts it at NULL.

## Model

| member | source | states |
|---|---|---|
| HeapLayout.MarksApart | arch/i386/kernel/mem/heap.c:54-81 | In any memory, eight bytes that look like the start of a control block neither begin inside a proper header nor run into one, at any byte offset |
| HeapLayout.NextAcross | arch/i386/kernel/mem/heap.c:54-81 | A header written across the `next` field of an older header leaves a value there that is no heap address |
| HeapLayout.HeaderWords | arch/i386/kernel/mem/heap.c:50-81 | A control block is five words four bytes apart: 0x51514949, 0x40404040 or 0xEFEFEFEF, next, prev and size |
| HeapModel.Ascending | arch/i386/kernel/mem/heap.c:83-87 | In a tiled heap every block ends before every later block starts |
| HeapModel.MarkFrame | arch/i386/kernel/mem/heap.c:108-143 | Rewriting live headers plants no header-like bytes elsewhere and re-aims no dead header at a live block |
| HeapModel.DeadBackLink | arch/i386/kernel/mem/heap.c:214-223 | A dead header at an out-of-date back link never points forward to the block that carries the link |
| HeapModel.InvStep | arch/i386/kernel/mem/heap.c:170-267 | Any update that writes live headers only, keeps used blocks, and keeps or repairs back links preserves the whole invariant |
| HeapOps.WriteHeaderStored | arch/i386/kernel/mem/heap.c:214-219 | The five stores of a new control block leave exactly that block in memory |
| HeapOps.SplitStored | arch/i386/kernel/mem/heap.c:203-223 | The stores of a splitting allocation leave the used block and the free remainder, and touch the bytes of those two headers only |
| HeapOps.MergeStored | arch/i386/kernel/mem/heap.c:132-142 | The stores of a merge leave one block with the summed size, repair the back link of the block above, and touch no other byte |
| HeapOps.FirstFit | arch/i386/kernel/mem/heap.c:182-200 | The chosen block fits and no lower one does |
| HeapInvariant.StatusInv | arch/i386/kernel/mem/heap.c:255 | Changing a block's status keeps the invariant |
| HeapInvariant.SplitTiled | arch/i386/kernel/mem/heap.c:211-223 | A split keeps the tiling and leaves every back link exact or as it was |
| HeapInvariant.SplitInv | arch/i386/kernel/mem/heap.c:203-223 | A split keeps the invariant, stale back link of the block above included |
| HeapInvariant.MergeTiled | arch/i386/kernel/mem/heap.c:132-140 | A merge keeps the tiling and leaves every back link exact or as it was |
| HeapInvariant.LiveMergeable | arch/i386/kernel/mem/heap.c:115-130 | On neighbouring blocks the four merge tests pass exactly when both are free and linked both ways |
| HeapInvariant.MergeInv | arch/i386/kernel/mem/heap.c:108-143 | A merge keeps the invariant although it leaves a dead header behind |
| HeapBlocks.FreeShape | arch/i386/kernel/mem/heap.c:254-263 | heap_free turns the run of linked free neighbours into one block whose size is the sum plus a header per absorbed block, relinks the block above, and keeps all others |
| HeapBlocks.CoalescesIffFresh | arch/i386/kernel/mem/heap.c:44-48 | On a list without two free neighbours, after heap_free there are still none if and only if the back links next to free neighbours are exact |
| HeapBlocks.ExactLinksKept | arch/i386/kernel/mem/heap.c:254-263 | With exact back links and no free pair, heap_free keeps both facts |
| HeapBlocks.CoalescingFails | arch/i386/kernel/mem/heap.c:214-223 | Five calls after heap_init leave two neighbouring free blocks |
| HeapBlocks.FreeUndoesAlloc | arch/i386/kernel/mem/heap.c:170-267 | heap_free of a fresh buffer restores every address, size and status if and only if the chosen block had no mutually linked free neighbour to be swallowed |
| HeapRuns.AllocInv | arch/i386/kernel/mem/heap.c:170-232 | heap_alloc keeps the invariant and acts on the block list as first fit with split |
| HeapRuns.AllocExact | arch/i386/kernel/mem/heap.c:182-227 | heap_alloc returns NULL exactly when no free block is large enough, otherwise the lowest one, with at least the requested size and at most 21 bytes more |
| HeapRuns.AllocByNumbers | arch/i386/kernel/mem/heap.c:202-227 | With 22 bytes or more to spare the lowest fitting block is cut: it keeps exactly n bytes, and a free block of 20 bytes less than the rest follows; otherwise it is taken whole. The pointer is 20 past its control block, and all other blocks stay |
| HeapRuns.AllocNull | arch/i386/kernel/mem/heap.c:182-200 | heap_alloc returns NULL exactly when every block is in use or has fewer than n bytes |
| HeapRuns.StaleLinkNeverMerges | arch/i386/kernel/mem/heap.c:258-263 | Whatever a back link points at, the merge tests pass only on the live free block right below |
| HeapRuns.FreeAcceptsExactly | arch/i386/kernel/mem/heap.c:242-252 | heap_free acts on exactly the buffers in use, whatever pointer with twenty bytes in front of it it is given, unless bytes below the heap look like a control block; a second free does nothing |
| HeapRuns.FreeAtBlocks | arch/i386/kernel/mem/heap.c:254-263 | The byte-level release changes the block list as the list-level one says |
| HeapRuns.FreeInv | arch/i386/kernel/mem/heap.c:234-267 | heap_free keeps the invariant for every such pointer |
| HeapRuns.WriteInv | arch/i386/kernel/mem/heap.c:27-31 | A client write inside a buffer keeps the invariant if it plants nothing that looks allocated or leads to a live block; dead headers in the buffer may be overwritten in part or whole |
| HeapRuns.InitInv | arch/i386/kernel/mem/heap.c:145-168 | heap_init establishes the invariant if and only if nothing past the first header looks like an allocated one |
| HeapRuns.InitByNumbers | arch/i386/kernel/mem/heap.c:145-168 | The five words that heap_init stores, and no other byte changes |
| HeapRuns.RunInv | arch/i386/kernel/mem/heap.c:170-267 | Every sequence of allocations, releases and client writes keeps the invariant |
| HeapRuns.RunConservesRegion | arch/i386/kernel/mem/heap.c:145-267 | After heap_init and any such sequence the blocks account for every byte between heap_bottom and heap_top |
| HeapRuns.BuffersDisjoint | arch/i386/kernel/mem/heap.c:27-42 | Two blocks share no byte, neither header nor data |
| HeapRuns.RunKeepsBuffer | arch/i386/kernel/mem/heap.c:170-267 | A buffer keeps its place, its size and every byte through any sequence that does not free it or write into it |
| HeapHistories.RunStep | arch/i386/kernel/mem/heap.c:170-267 | Each call of a history is legal where it happens and leads to where the history goes on |
| HeapHistories.RunBlocks | arch/i386/kernel/mem/heap.c:170-267 | In every history the bytes follow the list of blocks |
| HeapHistories.FreeUndoesAllocOnHeap | arch/i386/kernel/mem/heap.c:170-267 | On the heap in memory, heap_free of what heap_alloc has just returned restores every address, size and status if and only if the chosen block had no mutually linked free neighbour to be swallowed |
| HeapHistories.RunKeepsBlock | arch/i386/kernel/mem/heap.c:234-267 | A buffer stays in use until it is freed, whatever else is called and whoever writes |
| HeapHistories.OutstandingDisjoint | arch/i386/kernel/mem/heap.c:27-42 | In every history two buffers that were handed out share no byte, unless the first was freed before the second was given |
| HeapStores.AllocStoresWrite | arch/i386/kernel/mem/heap.c:202-223 | Storing heap_alloc's words one by one gives heap_alloc's memory |
| HeapStores.MergeStoresWrite | arch/i386/kernel/mem/heap.c:132-140 | The same for heap_merge |
| HeapStores.FreeStoresWrite | arch/i386/kernel/mem/heap.c:254-263 | The same for heap_free with both merges, for every pointer it is modelled for |
| KernelHeap.Allocator.constructor | arch/i386/kernel/mem/heap.c:145-168 | The code of heap_init reaches the initial heap |
| KernelHeap.Allocator.Merge | arch/i386/kernel/mem/heap.c:108-143 | The code of heap_merge makes exactly the specified stores and reports whether it merged |
| KernelHeap.Allocator.FindFit | arch/i386/kernel/mem/heap.c:182-200 | The walk along `next` meets only proper headers and stops at the first fit |
| KernelHeap.Allocator.Alloc | arch/i386/kernel/mem/heap.c:170-232 | The code of heap_alloc refines the specified allocation |
| KernelHeap.Allocator.Take | arch/i386/kernel/mem/heap.c:202-223 | Marking and splitting the chosen block |
| KernelHeap.Allocator.Free | arch/i386/kernel/mem/heap.c:234-267 | The code of heap_free refines the specified release |
| HeapTests.StepsAreGuards | arch/i386/kernel/mem/heap.c:115-130 | On one and the same memory the four steps, loaded one by one, are the tests of heap_merge |
| HeapTests.Doom | arch/i386/kernel/mem/heap.c:115-130 | If bytes of a live control block lie among the twenty tested, one of the steps fails whatever the other bytes are changed to |
| HeapTests.DoomCheck | arch/i386/kernel/mem/heap.c:242-252 | The same for the two words that heap_free tests |
| HeapSteps.ScanMove | arch/i386/kernel/mem/heap.c:182-227 | One turn of the search loop, reading memory as it is now, takes the first fit, goes on or ends with NULL |
| HeapSteps.CheckMove | arch/i386/kernel/mem/heap.c:242-246 | The first load of heap_free, as memory is then, decides whether it goes on to the second |
| HeapSteps.CheckStatusMove | arch/i386/kernel/mem/heap.c:248-255 | The second load, as memory is then, lets exactly the buffers in use through |
| HeapSteps.MergeNextMove | arch/i386/kernel/mem/heap.c:257-260 | heap_free goes on to the test of its first merge, on two live headers |
| HeapSteps.MergePrevMove | arch/i386/kernel/mem/heap.c:261-263 | heap_free goes on to the test of its second merge, on whatever header the back link leads to |
| HeapSteps.ProbeDecides | arch/i386/kernel/mem/heap.c:115-130 | On the memory of one moment the test passes exactly on a live free neighbour that is linked both ways |
| HeapSteps.ProbeMove | arch/i386/kernel/mem/heap.c:108-143 | One load of a merge test goes on with the next one, ends with the stores of the specified merge, or ends with nothing |
| HeapSteps.MoveInv | arch/i386/kernel/mem/heap.c:170-267 | Every load and store inside a critical section stays in memory and keeps to the way of its call, whose last phase has the specified heap and result |
| HeapSteps.MoveShortens | arch/i386/kernel/mem/heap.c:170-267 | Every move brings the end of the critical section nearer, within 22 moves more than there are blocks |
| HeapClients.CallStoresWrite | arch/i386/kernel/mem/heap.c:170-267 | Either call is the effect of its word stores |
| HeapClients.CallStoresAvoid | arch/i386/kernel/mem/heap.c:202-263 | No word stored by heap_alloc or heap_free lies in a buffer in use |
| HeapClients.CallCommutes | arch/i386/kernel/mem/heap.c:170-267 | A call after a client write is the client write after the call |
| HeapClients.WriteKeepsPhase | arch/i386/kernel/mem/heap.c:170-267 | A client write between any two moves leaves the critical section in the same phase of the same call, unless it changes the header that is just being tested and all of that header lies in a buffer in use |
| HeapTearing.UntornRun | arch/i386/kernel/mem/heap.c:234-267 | If the header behind the released block's back link does not lie in a buffer in use, no client writes at whatever moments lead the call astray |
| HeapTorn.PutLegal | arch/i386/kernel/mem/heap.c:27-31 | Bytes without a mark and with four high bytes in front forge nothing, wherever in a buffer they are written |
| HeapTorn.TornCheck | arch/i386/kernel/mem/heap.c:242-252 | Client writes between the two loads make heap_free accept a pointer into any buffer in use |
| HeapTorn.TornMerge | arch/i386/kernel/mem/heap.c:115-130 | Client writes between the four loads make heap_merge accept a header that never was there, for every block whose back link leads into a buffer in use |
| HeapTorn.TornIff | arch/i386/kernel/mem/heap.c:234-267 | A call never comes to store into a buffer in use, under every schedule of client writes that forge nothing, if and only if the header behind the back link (or in front of a pointer that is no buffer) does not lie in such a buffer |
| HeapTorn.TornAfterNineCalls | arch/i386/kernel/mem/heap.c:170-267 | Nine calls after heap_init such a release exists, on every blank region |
| SpinlockedHeap.StepInv | kernel/i386/i386/spinlock.c:29-47 | Every exchange, load, store, release and client write that does not disturb a test keeps mutual exclusion, the exact lock word, the results and the way to the sequential heap |
| SpinlockedHeap.Linearizable | kernel/i386/i386/spinlock.c:29-47 | In every interleaving in which no client writes to an exposed header while it is being tested, at most one processor is inside, the lock word is 1 exactly then, whenever it is 0 the memory is the one the calls and writes give one after another, and every call returned what it returns there |
| SpinlockedHeap.HandedOutDisjoint | kernel/i386/i386/spinlock.c:29-47 | In every such interleaving two processors never hold overlapping buffers |
| SpinlockedHeap.AdvanceLeavesBuffers | arch/i386/kernel/mem/heap.c:176-231 | In every such interleaving a processor inside changes no byte of a buffer in use |
| SpinlockedHeap.UncalmRun | kernel/i386/i386/spinlock.c:29-47 | Without that restriction there is an interleaving, after nine calls on every blank region, in which the lock holder comes to store into a client's buffer |
| SpinlockedHeap.HolderGetsOut | kernel/i386/i386/spinlock.c:29-47 | Whatever the others do, the holder keeps its place, and each of its own moves brings the release nearer |
| SpinlockedHeap.FreeLockIsTaken | kernel/i386/i386/spinlock.c:35-41 | A processor that exchanges on a free lock gets in |
| SpinlockedHeap.HolderCanMove | kernel/i386/i386/spinlock.c:43-47 | The holder of the lock always has a move inside memory or the release to make |
| CStrings.StrCut | kernel/stdkern/strsep.c:36-39 | Writing a NUL into a string cuts it into the part before and the part after |
| CStrings.StrSep | kernel/stdkern/strsep.c:20-48 | strsep cuts at the first delimiter, returns the rest or NULL, and changes one byte at most |
| CStrings.IsDelimiter | kernel/stdkern/strsep.c:33-42 | The inner loop decides membership in the delimiters |
| CStrings.StrNCmpZero | kernel/stdkern/strcmp.c:38-59 | strncmp answers 0 exactly when the strings agree on their first n + 1 bytes |
| CStrings.OneByteMore | kernel/stdkern/strcmp.c:50-58 | Two names that agree on 16 bytes are told apart by a comparison of 16 bytes, and two different names of 18 bytes are not |
| CStrings.Punctuation | kernel/kern/fs_path.c:18-66 | The delimiters are the characters `.`, `/` and `:` |
| TarNames.TrimmedKeepsNormal | kernel/fs/tarfs/tar.c:94-106 | Trimming a name in place keeps its path if and only if the name does not end in two slashes |
| TarNames.TwoSlashesLost | kernel/fs/tarfs/tar.c:102-106 | The name `a//` stands for another path after it has been trimmed |
| TarNames.TrimmedOnce | kernel/fs/tarfs/tar.c:94-106 | Such a name is trimmed at most once |
| TarNames.NormalForms | kernel/fs/tarfs/tar.c:93-106 | The names `q`, `/q` and `./q`, with or without a slash at the end, all stand for `q` |
| TarNames.RootForms | kernel/fs/tarfs/tar.c:93-106 | `./` and `/` stand for the root |
| TarNames.SplitBasename | kernel/fs/tarfs/tar.c:57-77 | The scan splits at the last slash |
| TarNames.SplitJoin | kernel/fs/tarfs/tar.c:57-77 | Splitting undoes joining a directory and a name |
| TarNames.DirShorter | kernel/fs/tarfs/tar.c:145-148 | The directory part is shorter, the measure on which node building ends |
| TarFormat.OctalExact | kernel/fs/tarfs/tar.c:31-40 | octal2int of an octal numeral is its value modulo 2^32, exact if and only if the value is below 2^32 |
| TarFormat.Octal2Int | kernel/fs/tarfs/tar.c:31-40 | The loop computes that value |
| TarFormat.OctalOfOthers | kernel/fs/tarfs/tar.c:31-40 | What bytes that are no octal digits count for, negative characters included |
| TarFormat.LayoutEntry | kernel/fs/tarfs/tar.c:173-188 | Every entry of a laid-out archive is found at its computed block |
| TarFormat.NextHeader | kernel/fs/tarfs/tar.c:184-187 | The next header lies on the first 512-byte boundary at or after the end of the data |
| TarFormat.DecodeBlocks | kernel/fs/tarfs/tar.c:173-188 | Scanning an archive finds exactly the headers of its entries, in order |
| TarEncoder.DigitsValue | kernel/fs/tarfs/tar.c:31-40 | Writing a size in octal and reading it back gives the size |
| TarEncoder.EncodeIsLayout | kernel/fs/tarfs/tar.c:173-188 | Every list of entries whose names and sizes fit has an archive from which exactly those entries are read |
| TarExample.ExampleLayout | kernel/fs/tarfs/tar.c:173-188 | 2048 bytes given one by one, with the size at 124, the type at 156 and the next header at 512, are an archive of a directory and a file of ten bytes |
| TarExample.ExampleResolves | kernel/kern/fs_path.c:35-74 | Mounted as `V`, the file of that archive is what `V:/a` leads to, `V:` leads to its directory and `a` leads nowhere |
| VfsNode.CopyExact | kernel/stdkern/strcpy.c:20-31 | strcpy writes the string and its end and nothing behind, and nothing at all for an empty string |
| VfsNode.NodeName | kernel/fs/tarfs/tar.c:143-167 | Read back from the node memory, whatever it held before, the name is the base name, or its first 64 bytes and the flags byte when it is longer |
| VfsNode.KeptExactly | kernel/sys/vfs.h:150-156 | For which lengths and types a node keeps its name |
| TarTree.ParentIsShorter | kernel/fs/tarfs/tar.c:145-155 | A node's parent is an entry that carries its directory's path, and that path is shorter |
| TarTree.KindsByCharacter | kernel/fs/tarfs/tar.c:156-164 | Type `0` is a regular file, type `5` a directory, and all others are neither |
| TarTree.ParentChainsEnd | kernel/fs/tarfs/tar.c:116-171 | No node is its own ancestor and every parent chain ends, whatever the archive |
| TarTree.ChildrenExact | kernel/fs/tarfs/tar.c:275-301 | The listing of a directory has every child once, in archive order |
| TarTree.FindDirIsFirstListed | kernel/fs/tarfs/tar.c:303-321 | tarfs_finddir answers with the first listed child of that name, or NULL if there is none |
| TarTree.AncestorIsDir | kernel/fs/tarfs/tar.c:145-155 | In a well-formed archive every prefix of a listed path is listed as a directory |
| TarTree.FindDirIsLookup | kernel/fs/tarfs/tar.c:303-321 | Searching a directory for a name finds exactly the entry whose path is the directory's path plus the name, if the name has at most 63 bytes or every node keeps its name |
| TarTree.FoundIffKept | kernel/fs/tarfs/tar.c:303-321 | Searching an entry's own directory for its own name finds the entry if and only if its node keeps the name and no earlier node there has come to carry it |
| TarVolume.TrimInPlace | kernel/fs/tarfs/tar.c:102-106 | Trimming one name inside the archive keeps every entry's path and touches nothing but that name |
| TarVolume.CutName | kernel/fs/tarfs/tar.c:93-106 | The pointer arithmetic and the NUL store of lookup_vnode |
| TarVolume.Archive.Lookup | kernel/fs/tarfs/tar.c:82-114 | Returns the first entry with the path, builds its node, never replaces a node, and builds none with a longer path |
| TarVolume.Archive.Reassemble | kernel/fs/tarfs/tar.c:116-171 | Gives the entry its one node with the right type and parent and the name its field makes of the base name, and notes a copy that leaves the node; the mutual recursion ends on path length |
| TarVolume.Archive.constructor | kernel/fs/tarfs/tar.c:173-195 | Some name is copied past its node if and only if a base name has 80 bytes or more; otherwise mounting leaves every entry with its node, the root at the first empty path, and all sizes and data intact |
| TarVolume.DataSurvives | kernel/fs/tarfs/tar.c:102-106 | Trimming names changes no size field and no file data |
| TarVolume.Archive.Read | kernel/fs/tarfs/tar.c:247-261 | A read returns exactly the bytes from the offset on, as many as asked for or left |
| TarVolume.Archive.ReadAll | kernel/kern/kern_main.c:92-96 | Reading on by the returned count, in pieces of any positive size, ends with the whole file, unless the first piece has 2^31 bytes or more, which the signed count takes for an error |
| TarVolume.Archive.ReadDir | kernel/fs/tarfs/tar.c:275-301 | Index k gives the k-th child in archive order, then NULL |
| TarVolume.Archive.FindChild | kernel/fs/tarfs/tar.c:303-321 | The loop finds the first child with the name |
| PathWalk.FollowExact | kernel/kern/fs_path.c:11-33 | From any listed directory, if the components have at most 63 bytes or every node keeps its name, the walk yields a node exactly for a listed path, and dereferences NULL exactly when an intermediate directory is missing |
| PathWalk.FollowReaches | kernel/kern/fs_path.c:11-33 | Whatever the lengths of the names, a listed path leads to its entry if and only if every entry on the way keeps its name |
| PathWalk.OnlyInDirectories | kernel/kern/fs_fsops.c:88-99 | Nothing is found in a node that is no directory |
| PathResolve.FollowPath | kernel/kern/fs_path.c:11-33 | The recursive code on the buffer cut by strsep refines the walk |
| PathResolve.FsResolve | kernel/kern/fs_path.c:35-74 | fs_resolve on its private copy refines the resolution function, which NoColonNoNode, MissingSlashGivesRoot and MountThenResolve pin down for every path |
| PathResolve.MountThenResolve | kernel/kern/fs_path.c:35-74 | In a mounted well-formed archive, with short components or kept names, `VOL:/p` resolves to the entry with path p if there is one, crashes exactly when p starts with a slash or passes a missing directory, and gives NULL otherwise; with any names a listed path resolves to its entry exactly when the names on the way are kept |
| PathResolve.ResolutionExactIff | kernel/kern/fs_path.c:35-74 | Every path leads where it should if and only if every node keeps its name |
| PathResolve.LongNameIsLost | kernel/fs/tarfs/tar.c:145-164 | A regular file with a name of 64 to 79 bytes is listed but resolves to NULL, and a path that is not listed resolves to it |
| PathResolve.SixtyFourBytes | kernel/fs/tarfs/tar.c:145-164 | The same for one name of 64 bytes |
| PathResolve.MissingDirectoryCrashes | kernel/kern/fs_path.c:26-29 | `VOL:/a/b` crashes on an archive with a root directory only |
| PathResolve.MissingSlashGivesRoot | kernel/kern/fs_path.c:56-63 | Without a slash after the colon the answer is the volume's root, and NULL exactly when the volume is unknown or has none |
| PathResolve.NoColonNoNode | kernel/kern/fs_path.c:49-53 | Without a colon the answer is NULL, whatever is mounted |
| PathResolve.MountAndRead | kernel/kern/kern_main.c:43-98 | vfs_mount beside other volumes, fs_resolve, fs_open and fs_read: mounting succeeds exactly for a new name, a known driver and free memory; the bytes read are those of the regular file with that path, anything else is refused, a volume that could not be listed is not found, and both faults are told apart |
| PathResolve.ReadNode | kernel/kern/fs_fsops.c:3-46 | Only entries of type 0 are opened and read, and they are read by the reading loop |
| Vfs.LookupIsTable | kernel/kern/fs_vfs.c:51-64 | Looking a name up in the volume list is looking its first 17 bytes up in a finite map |
| Vfs.SeventeenBytes | kernel/kern/fs_vfs.c:51-64 | Names that differ in their seventeenth byte are two volumes, and names that differ only later are one |
| Vfs.TableWithout | kernel/kern/fs_vfs.c:137-149 | Removing a volume removes its key and nothing else |
| Vfs.UnmountKeepsOthers | kernel/kern/fs_vfs.c:137-149 | Unmounting one volume changes no other name's lookup |
| Vfs.ServeExact | kernel/kern/fs_vfs.c:108-191 | Each mount or unmount keeps the volumes distinct and does to them what it does to a plain table; it keeps the two lists in step if and only if it is not a mount in which one list_append fails and the other does not |
| Vfs.HistoryExact | kernel/kern/fs_vfs.c:66-149 | After vfs_init and every sequence of mounts and unmounts no two volumes match and the volumes are what the same requests make of a plain table; the i-th root node names and points to the i-th volume as long as no mount had one append fail alone |
| Vfs.OutOfStep | kernel/kern/fs_vfs.c:132-133 | One mount whose second append fails leaves a volume without a node |
| Vfs.Registry.constructor | kernel/kern/fs_vfs.c:66-90 | vfs_init leaves the volume `ROOT` alone in both lists, and the driver `rootfs` registered before the others |
| Vfs.Registry.FindMountpoint | kernel/kern/fs_vfs.c:51-64 | The loop finds the first volume that compares equal |
| Vfs.Registry.FindDriver | kernel/kern/fs_vfs.c:92-106 | The loop decides whether the driver is registered |
| Vfs.Registry.Mount | kernel/kern/fs_vfs.c:108-135 | Reports success exactly for a new key, a known driver other than `rootfs`, free memory and a willing hook, and changes nothing otherwise; adds one row to the map if the volume could be listed; keeps the lists in step exactly when both appends succeed or both fail |
| Vfs.Registry.Umount | kernel/kern/fs_vfs.c:137-149 | Succeeds exactly for a known key; removes its row and the first node of its name; volumes and root nodes stay in step if they were |
| Vfs.Registry.Perform | kernel/kern/fs_vfs.c:108-149 | The code of any sequence of mounts and unmounts refines the specified history |
| Vfs.Registry.FindNode | kernel/kern/fs_vfs.c:177-191 | Comparing whole names finds the first node of that name |
| Vfs.RemovedInStep | kernel/kern/fs_vfs.c:165-191 | With the lists in step that is the node of that very volume |
| Terminal.WindowPut | kernel/device/vtcon/vtcon.c:157-235 | Typing into the window of a document is the window of typing into the document, scrolling included |
| Terminal.ScreenIsWindow | kernel/device/vtcon/vtcon.c:584-593 | For every stream of bytes the 24 text rows and the cursor are the end of an unbounded document fed with the same bytes |
| Terminal.Independent | kernel/device/vtcon/vtcon.c:123-155 | In every sequence of typing, clearing and switching each terminal is what it would be alone with its own events |
| Terminal.PutControl | kernel/device/vtcon/vtcon.c:201-235 | Backspace, carriage return and newline, byte by byte: the cursor, the rows, and the new row of NULs in the foreground colour when the screen scrolls |
| Terminal.PutTab | kernel/device/vtcon/vtcon.c:212-221 | A tab goes to the next column divisible by seven, or to column 0 of the next row when that is past column 79 |
| Terminal.PutCharacter | kernel/device/vtcon/vtcon.c:226-235 | Any other byte is stored with both colours in the two bytes under the cursor and nowhere else; the cursor goes one column on, or to the next row after column 79 |
| Terminal.ClearExact | kernel/device/vtcon/vtcon.c:136-155 | Clearing puts spaces in the current colours in all 24 rows and the cursor in row 0, column 0 |
| Terminal.SwitchExact | kernel/device/vtcon/vtcon.c:123-134 | There are eight terminals, and switching to any other number does nothing |
| Console.VgafbRead | kernel/device/vgafb.c:80-100 | Reads are clipped to the framebuffer |
| Console.VgafbWrite | kernel/device/vgafb.c:102-122 | Writes are clipped and change nothing outside the written bytes |
| Console.ClipExact | kernel/device/vgafb.c:80-122 | Exactly the bytes below 4000 are moved, and none when the end address wraps |
| Console.SpliceCell | kernel/device/vtcon/vtcon.c:226-231 | Writing a cell's two bytes changes one column of one text row |
| Console.SpliceRow | kernel/device/vtcon/vtcon.c:157-168 | Writing a row changes that row; writing the status row changes no text row |
| Console.EntryIsCell | kernel/device/vtcon/vtcon.c:20-23 | A VGA entry lies in memory as the character followed by both colours |
| Console.Vtcon.constructor | kernel/device/vtcon/vtcon.c:93-114 | The terminal on screen shows the framebuffer, the other seven are full of spaces, all with the cursor home and grey on black |
| Console.Vtcon.CopyRow | kernel/device/vtcon/vtcon.c:157-168 | One text row becomes a copy of another, and the status row stays |
| Console.Vtcon.FillRow | kernel/device/vtcon/vtcon.c:136-178 | Eighty equal cells fill one row and no other, the status row included |
| Console.Vtcon.Scroll | kernel/device/vtcon/vtcon.c:180-190 | The ascending in-place copies shift all text rows up by one, blank the last and leave the status row alone |
| Console.Vtcon.MoveLine | kernel/device/vtcon/vtcon.c:180-190 | One row down, scrolling at the last text row |
| Console.NextTab | kernel/device/vtcon/vtcon.c:212-215 | The loop stops at the next multiple of seven, at most seven columns on |
| Console.Vtcon.StoreCell | kernel/device/vtcon/vtcon.c:226-231 | A typed character lands in its cell of a text row, never in the status row |
| Console.Vtcon.PutChar | kernel/device/vtcon/vtcon.c:201-235 | The terminal on screen changes as one typed byte says, the cursor stays in its 80 columns and 24 rows, and no other context changes |
| Console.Vtcon.ClearScreen | kernel/device/vtcon/vtcon.c:136-155 | Every text row holds spaces in both colours, the colours stay and the cursor goes to row 0, column 0 |
| Console.Vtcon.SwitchContext | kernel/device/vtcon/vtcon.c:123-134 | Switching changes which terminal is shown and none of the eight; numbers past 7 do nothing |
| Console.Vtcon.Perform | kernel/device/vtcon/vtcon.c:116-235 | One framebuffer and eight saved buffers refine eight terminals in every sequence of events |
| Console.Vtcon.Write | kernel/device/vtcon/vtcon.c:584-593 | Writes its bytes one by one to the terminal on screen and reports their number |
| LinkedList.ChainWith | kernel/stdkern/list.c:10-17 | Linking a node in between two neighbours keeps next and prev mutually inverse |
| LinkedList.ChainWithout | kernel/stdkern/list.c:176-190 | Bypassing a node keeps next and prev mutually inverse |
| LinkedList.List.Bypass | kernel/stdkern/list.c:176-187 | The neighbours of a node are linked to each other and head and tail moved if need be |
| LinkedList.List.constructor | kernel/stdkern/list.c:42-52 | A new list is empty |
| LinkedList.List.Append | kernel/stdkern/list.c:60-72 | Adds at the end, or changes nothing when there is no memory |
| LinkedList.List.Prepend | kernel/stdkern/list.c:74-86 | Adds at the front, or changes nothing |
| LinkedList.List.Insert | kernel/stdkern/list.c:88-115 | Adds before the position, clamped to the list |
| LinkedList.List.First | kernel/stdkern/list.c:117-124 | The first element or NULL |
| LinkedList.List.Last | kernel/stdkern/list.c:126-133 | The last element or NULL |
| LinkedList.List.Get | kernel/stdkern/list.c:135-145 | The element at the index or NULL |
| LinkedList.List.Index | kernel/stdkern/list.c:147-159 | The least position of the pointer, or -1 as an unsigned number when it is absent |
| LinkedList.List.Unchain | kernel/stdkern/list.c:176-190 | Removes the node at its position and clears it |
| LinkedList.List.Remove | kernel/stdkern/list.c:192-205 | Removes the element at the index, or nothing past the end |
| LinkedList.List.Delete | kernel/stdkern/list.c:207-218 | Removes the first occurrence and nothing else |
| LinkedList.List.PopHead | kernel/stdkern/list.c:220-227 | Removes and returns the first element |
| LinkedList.List.PopTail | kernel/stdkern/list.c:229-236 | Removes and returns the last element |
| LinkedList.List.Empty | kernel/stdkern/list.c:161-174 | The list ends empty, the first node is cleared, and all other nodes are left as they were |
| RingBuffer.RingBuf.constructor | kernel/stdkern/ringbuf.c:10-26 | A new buffer holds nothing, and it is in order if and only if the status word, which is left unset, happens to have neither flag |
| RingBuffer.RingBuf.Write | kernel/stdkern/ringbuf.c:28-42 | Appends the byte, dropping the oldest one and recording the loss when full |
| RingBuffer.RingBuf.TestOverflow | kernel/stdkern/ringbuf.c:44-48 | True exactly when a byte was dropped since the last read |
| RingBuffer.RingBuf.TestReady | kernel/stdkern/ringbuf.c:50-54 | True exactly when something waits, full and empty told apart by the status bit |
| RingBuffer.RingBuf.Read | kernel/stdkern/ringbuf.c:56-64 | Returns and removes the oldest byte |
| RingBuffer.RingBuf.Perform | kernel/stdkern/ringbuf.c:28-64 | The code of any sequence of writes and ready reads ends in the specified queue and has read the specified bytes |
| RingBuffer.History | kernel/stdkern/ringbuf.c:28-64 | Over every history the waiting bytes are the last ones written, every byte was read, dropped or still waits, and the overflow flag tells exactly of losses since the last read |
| RingBuffer.LastWritten | kernel/stdkern/ringbuf.c:28-64 | The waiting bytes are the last ones written |
| RingBuffer.LosslessFifo | kernel/stdkern/ringbuf.c:28-64 | Without losses, what was read followed by what waits is what was written |
| FrameMap.BitSet | arch/i386/kernel/mem/pmm.c:72-76 | Setting a bit changes that bit and no other |
| FrameMap.BitClear | arch/i386/kernel/mem/pmm.c:84-88 | Clearing a bit changes that bit and no other |
| FrameMap.FrameBit | arch/i386/kernel/mem/pmm.c:64-82 | Frame f is bit f % 32 of word f / 32 |
| FrameMap.MaskValues | arch/i386/kernel/mem/pmm.c:64-82 | Bits are counted from the lowest |
| FrameMap.Manager.FrameSet | arch/i386/kernel/mem/pmm.c:72-76 | Adds the frame to the set of taken frames |
| FrameMap.Manager.FrameTest | arch/i386/kernel/mem/pmm.c:78-82 | Membership in the set |
| FrameMap.Manager.FrameClear | arch/i386/kernel/mem/pmm.c:84-88 | Removes the frame from the set |
| FrameMap.Manager.FindFree | arch/i386/kernel/mem/pmm.c:99-117 | The least free frame, or -1 exactly when all covered frames are taken |
| FrameMap.Manager.AllocPage | arch/i386/kernel/mem/pmm.c:219-229 | Hands out the lowest frame that is neither reserved nor handed out; with frame 0 and the tail bits set aside it returns 0 exactly when every frame is taken |
| FrameMap.Manager.FreePage | arch/i386/kernel/mem/pmm.c:231-235 | Takes exactly that page back; a page that was never handed out loses its reservation instead |
| FrameMap.OutApart | arch/i386/kernel/mem/pmm.c:219-235 | After every sequence of allocations and matched releases no page is out twice and no reserved frame is out |
| FrameMap.Manager.Perform | arch/i386/kernel/mem/pmm.c:219-235 | The code of any such sequence hands out exactly the specified pages and leaves the reserved frames alone |
| FrameMap.Manager.ReserveBlock | arch/i386/kernel/mem/pmm.c:141-152 | Marks one frame per started page of the block, below the frame count; the 32-bit page counter never wraps early |
| FrameMap.ReservesAllTouched | arch/i386/kernel/mem/pmm.c:141-152 | For every block below 16 TiB, every touched frame below the frame count is marked if and only if the marking reaches the last frame or the block's offset and length stay within the pages counted; only touched frames are marked |
| FrameMap.UnalignedBlockMissesAFrame | arch/i386/kernel/mem/pmm.c:141-152 | A two-byte block across a page boundary touches a frame that is not marked |
| FrameMap.HighBlockMarksOthers | arch/i386/kernel/mem/pmm.c:145 | From 16 TiB on the frames marked are those of a lower block and none of them is touched |

## Left out

- Port input and output, interrupt and descriptor tables, paging registers and assembly: hardware effects without an unbounded property.
- The timer, clock, serial, keyboard and null drivers, the keyboard scancode tables and vtcon_read: fixed tables and thin forwarding.
- The text of the status bar and the hardware cursor: the status row holds arbitrary bytes after every drawing.
- fs_write, fs_ioctl and fs_close dispatch: one-branch forwarding; the tests of fs_open, fs_read and fs_finddir are modelled.
- Interrupts inside ring buffer operations: each operation is one step.
- HeapRuns.FreeAcceptsExactly: pointers with fewer than twenty bytes of memory in front of them, such as NULL, and pointers to a forged header below the heap are excluded.
- SpinlockedHeap.Linearizable: heap_free is called there with pointers into the heap only, and a client write to an exposed header while it is being tested is excluded, because the claim is false then (SpinlockedHeap.UncalmRun).
- HeapRuns.WriteInv: a client write that forges a header is excluded, because the allocator cannot tell it from its own.
- HeapRuns.InitInv: the heap lies below 1 GiB, as the linker script puts it.
- TarVolume.Archive.constructor: entry names end in at most one slash after normalisation and are shorter than 100 bytes, allocation succeeds, as the mount code does not check it, and the unset root pointer is taken as NULL; nothing is said about memory once a name was copied past its node.
- PathResolve.FsResolve: the empty path is excluded, because strdup leaves its one-byte copy uninitialised.
- Vfs.Registry.constructor: there is memory for the root file system's volume and its node, and vfs_init runs once.
- RingBuffer.RingBuf.constructor: a size of zero is excluded.
- Vfs.Registry.Mount: volume names are non-empty and shorter than 64 bytes, as the node's name field and strcpy demand; the copy of the name and the memory of the node itself, which the source does not check, are assumed to be there.
- RingBuffer.RingBuf.Read: readers ask whether something waits first, as the header file demands.
- FrameMap.Manager.constructor: starts from a given map with enough words, since the source passes a word count as a byte count and does not clear the map.
- The boot-time walk over the memory map and the reservation of the kernel image: they call the modelled operations in a loop.
