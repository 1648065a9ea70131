# Verified models of the ExoCore kernel's storage, memory, process and drawing code

The kernel keeps most of its state in static tables and byte buffers that many functions update in place.
This project models those functions in Dafny, with the same branches, limits and error codes, and proves what
holds of them for every input, every reachable state and every run.

| part | files | source |
|---|---|---|
| shared definitions | `Common` | |
| FAT32 volume | `Bytes`, `Bits`, `FatLayout`, `FatParse`, `FatChain`, `FatDir`, `FatFiles`, `FatVolume`, `FatRun` | kernel/fs.c |
| heap allocator | `MemWrap`, `MemArena`, `MemList`, `MemState`, `MemMerge`, `MemHeap`, `MemSums`, `MemRun` | kernel/mem.c |
| memory contexts | `MemCtx` | kernel/memctx.c |
| ELF loader | `Elf`, `ElfLayout` | kernel/elf.c, include/elf.h |
| processes | `ProcTable`, `Proc` | kernel/proc.c, kernel/syscall.c |
| in-memory file tree | `VfsPath`, `VfsTree`, `Vfs`, `VfsRelative`, `VfsRun` | kernel/vfs.c |
| text grid and framebuffer | `Line`, `Framebuffer`, `VgaDraw` | kernel/vga_draw.c, kernel/framebuffer.c |
| MicroPython extension modules | `Heapq`, `Base64` | micropython/extmod |

How the parts are built:

* An object or static table that the source updates in place is a class. `Valid()` is its invariant; a function
  gives its abstract value (`FileMap()` of a volume, `Allocations()` of a heap, `Snapshot()` of the contexts).
  Every method says what the new abstract value is and what is left alone.
* The proofs are lemmas about those values: chains of clusters, tilings of a region by blocks, ledgers, trees of
  parent pointers.
* The system calls of an image, nested spawns included, are a relation between kernel states (`Runs`, `Calls`,
  `Spawns` in `Proc`); the methods are proved to carry it out and to keep the invariants.
* The parts compose: `Proc` runs on `MemCtx`, which runs on `MemHeap`, and loads images through `Elf`.

Main results:

* **Files on a cluster chain.** A write lays exactly the written bytes over the file at its position, changes no
  other file, and a read returns exactly that slice (`WriteFd`, `ReadFd`, `SplicedReadBack`). Chains stay in
  range, acyclic, disjoint and ended over every run of calls (`FatRun.Run`).
* **Tiling.** The used heap and swap regions are exactly partitioned into blocks, each live or on the free list
  once, with no two free neighbours; freeing, merging and compaction keep this (`MemHeap.Heap.Free`, `Coalesce`).
* **Nested runs.** However deep images spawn images, at most one process runs, and when an image ends the process
  that started it runs again, unless it was killed (`Proc.Kernel.StartFlat`, `Run`).
* **Failed spawn is a rollback** of process table, context tables, live allocations and used bytes; a spawn succeeds
  whenever the file is good and there are a slot, a context, three rows and room for file, image and stack
  (`Proc.Kernel.SpawnExec`).
* **Two path walkers agree** on every path of every table, and printing a path and resolving it are inverse
  (`VfsTree.WalkersAgree`, `Vfs.RoundTrip`). A relative path means from a directory what it means behind the printed
  path of that directory (`VfsRelative.RelativeResolve`, `RelativeAbove`).
* **Exact sizes.** A best fit is cut to the bytes needed and its rest stays on the list, unless less than a header and
  eight bytes would be left (`MemHeap.Heap.SplitBlock`, `Alloc`).
* **Layouts are read back.** Boot sectors, directory entries, ELF headers and program headers, laid out byte by byte
  from their records, are read as those records (`FatParse.ParseBack`, `FatDir.RecordFields`, `ElfLayout.ReadBack`).
* **Dirty redraw equals full redraw**, pixel for pixel (`Framebuffer.Screen.PresentDirty`).

Seven properties hold only under a condition the code does not check. Each is proved as an if-and-only-if and comes
with an input that breaks it:

* `fat32_parse` accepts a layout with its tables in place exactly when the FAT has an entry for every cluster and the
  first data sector does not wrap (`FatParse.ParseInPlace`, `ShortTableAccepted`, `WrappedTableAccepted`).
* `mem_alloc` serves a request as it should exactly when no 64-bit sum on its path wraps, or its size wraps and there is
  no room at all (`MemWrap.DeliversIffSafe`, `HugeRequestRewinds`, `GrowthWraps`).
* A creation keeps sibling names distinct exactly when no sibling carries the name cut to 31 characters
  (`VfsTree.Added`, `VfsRun.LongNamesCollide`).
* A rename keeps the tree exactly when the node is not above its new place and no other sibling carries the cut name
  (`VfsTree.MovedTree`, `VfsRun.SelfNestingCutsOff`).
* A new process keeps the process tree exactly when its parent is not terminal (`ProcTable.CreatedTree`,
  `TerminalParentBreaks`); behind the system-call gate it never is.
* The parent walker treats a relative path like the absolute one exactly when the directory is the root or the path is
  not made of "." alone with a closing slash (`VfsRelative.RelativeAbove`, `DotSlash`).
* A present shows every cell in its own row exactly when the screen has room for all 80 columns
  (`VgaDraw.RowsInPlace`, `NarrowShifts`).

`dafny verify dfyconfig.toml` checks the project.

## Model

| member | source | states |
|---|---|---|
| `FatParse.ParseInPlace` | kernel/fs.c:76-120 | for every accepted boot sector, every entry of every FAT copy lies before the next copy and before the data area if and only if the copies have room for all clusters and the first data sector does not wrap |
| `FatParse.RoomySound` | kernel/fs.c:76-120 | under those two conditions and below 4 GiB the layout is sound |
| `FatParse.ShortTableAccepted` | kernel/fs.c:94-108 | a concrete boot sector that is accepted although its FAT has 128 entries and needs 129: entry 128 begins where the root directory begins |
| `FatParse.ShortTableOverwrites` | kernel/fs.c:133-153 | storing that entry overwrites the start of the root directory |
| `FatParse.WrappedTableAccepted` | kernel/fs.c:99-108 | a concrete boot sector that is accepted although its first data sector wraps: the root directory is the first sector of the first FAT |
| `FatParse.SectorSize` | kernel/fs.c:94-97 | a sector size that passes the mask test is a multiple of 512 |
| `FatParse.ParseBack` | kernel/fs.c:76-120 | a boot sector laid out from its fields is accepted exactly if the fields are good, and the geometry is what they say; with `Accepted` spelling out both |
| `Bits.AndPredecessor` | kernel/fs.c:94 | a & (a - 1) is zero exactly for the powers of two |
| `FatLayout.FatOffApart` | kernel/fs.c:133-136 | the entries of all FAT copies occupy pairwise disjoint bytes |
| `FatLayout.ClusterOffApart` | kernel/fs.c:122-131 | different clusters occupy disjoint bytes |
| `FatLayout.ClusterOffBounds` | kernel/fs.c:122-131 | every cluster lies behind the FATs and inside the volume |
| `FatLayout.LayoutOrder` | kernel/fs.c:122-136 | reserved sectors, then the FAT copies one behind the other with four bytes an entry, then the clusters from number 2 on, each behind the last |
| `FatLayout.SetCopiesView` | kernel/fs.c:145-153 | storing an entry in every copy keeps the copies equal and changes one entry of the table and no cluster |
| `FatLayout.BlockWriteView` | kernel/fs.c:450-456 | bytes written inside one cluster change that cluster, no FAT entry and no other cluster |
| `FatChain.ChainUnique` | kernel/fs.c:174-192 | a first cluster has at most one chain |
| `FatChain.PathNoDup` | kernel/fs.c:174-192 | an ended chain never visits a cluster twice |
| `FatChain.PathLength` | kernel/fs.c:174-192 | a chain has no more clusters than the volume |
| `FatChain.EndMarks` | kernel/fs.c:20-21 | on a concrete table: which values link, which end a chain, and which do neither |
| `FatChain.GrowOne` | kernel/fs.c:159-192 | linking a free, zeroed cluster behind a chain extends exactly that chain by one zero cluster |
| `FatChain.GrownTrans` | kernel/fs.c:178-190 | growing twice is growing |
| `FatChain.FreeWalkPath` | kernel/fs.c:194-203 | walking a chain and zeroing its entries frees exactly the clusters of the chain |
| `FatChain.RawGrown` | kernel/fs.c:174-192 | growing a chain appends zeros to the bytes it holds |
| `FatChain.RawSlice` | kernel/fs.c:410-421 | a slice inside the i-th cluster is the slice of the file's bytes at that place |
| `FatChain.RawOverlay` | kernel/fs.c:445-456 | a write inside the i-th cluster is a write at that place of the file's bytes |
| `FatDir.FirstMatch` | kernel/fs.c:258-295 | the slot the scan stops at is the first file with the name |
| `FatDir.NoMatch` | kernel/fs.c:258-295 | a scan that reaches the end marker or the end of the directory has missed no file |
| `FatDir.NoSpare` | kernel/fs.c:258-295 | a scan that met neither a deleted slot nor the end marker has no slot to offer |
| `FatDir.SetEntryFiles` | kernel/fs.c:297-304 | rewriting size and first cluster of a file keeps the set of files and the clean tail |
| `FatDir.AddEntryFiles` | kernel/fs.c:363-373 | filling a spare slot adds exactly one file |
| `FatDir.PlainBits` | kernel/fs.c:279-282 | the two attribute tests, as bit masks 0x0F and 0x10 |
| `FatDir.RecordFields` | kernel/fs.c:297-304 | an entry laid out from name, attribute, first cluster and size is read back as those |
| `FatFiles.SplicedTrans` | kernel/fs.c:444-461 | two consecutive writes are one write of the joined bytes |
| `FatFiles.SplicedReadBack` | kernel/fs.c:397-467 | after a write the file reads back the bytes written, its other old bytes are unchanged, and a gap reads zero if the slack was zero |
| `FatFiles.SplicedAppend` | kernel/fs.c:428-467 | a write at the end of a file appends |
| `FatFiles.ChunkWritten` | kernel/fs.c:445-456 | one turn of the write loop grows the chain and splices one chunk |
| `FatFiles.RewrittenOthers` | kernel/fs.c:428-467 | rewriting one file's chain leaves the directory and every other file's bytes alone and the chains disjoint |
| `FatFiles.ChainFreed` | kernel/fs.c:373-380 | freeing one file's chain keeps the other chains, their bytes and the directory |
| `FatFiles.ChangeCompleted` | kernel/fs.c:463-465 | once the entry is rewritten the volume is consistent again and exactly one file has changed |
| `FatFiles.AddCompleted` | kernel/fs.c:363-373 | once a spare slot is filled the volume is consistent and has exactly one more, empty, file |
| `FatVolume.Volume.Mount` | kernel/fs.c:306-321 | parses the boot sector; on a well-formed volume it opens no descriptor and establishes the invariant |
| `FatVolume.Volume.FatGet` | kernel/fs.c:138-143 | the low 28 bits of the entry in the first copy |
| `FatVolume.Volume.FatSet` | kernel/fs.c:145-153 | one entry changes, in every copy, and nothing else |
| `FatVolume.Volume.AllocCluster` | kernel/fs.c:159-172 | the lowest free cluster, zeroed and end-marked; 0 exactly when the volume is full |
| `FatVolume.Volume.GrowChain` | kernel/fs.c:180-186 | a new cluster is linked behind the last one, or nothing changes on a full volume |
| `FatVolume.Volume.ChainCluster` | kernel/fs.c:174-192 | the index-th cluster of the chain, grown if asked and no further than that; short only on a full volume |
| `FatVolume.Volume.FreeChain` | kernel/fs.c:194-203 | ends on any table, even a cyclic one, having zeroed the entries it walked |
| `FatVolume.Volume.ScanCluster` | kernel/fs.c:267-288 | the first decisive slot of one directory cluster, and the first deleted one on the way |
| `FatVolume.Volume.FindDirEntry` | kernel/fs.c:258-295 | the first file of that name, or that there is none and which slot is spare |
| `FatVolume.Volume.FilesArePlain` | kernel/fs.c:269-282 | what can be opened is not deleted, has attribute bit 0x10 clear and is no part of a long name |
| `FatVolume.Volume.WriteEntry` | kernel/fs.c:463-465 | only size and first cluster of one slot change |
| `FatVolume.Volume.CreateEntry` | kernel/fs.c:366-372 | only one slot changes, to a new empty file |
| `FatVolume.Volume.ReadEntry` | kernel/fs.c:297-299 | the first cluster and the size of the file in the slot |
| `FatVolume.Volume.Truncate` | kernel/fs.c:373-380 | the file is empty, exactly its clusters are free, every other file is unchanged |
| `FatVolume.Volume.Create` | kernel/fs.c:363-373 | one new empty file, every other file unchanged |
| `FatVolume.Volume.Lookup` | kernel/fs.c:360-380 | which of missing, found, created and truncated applies, and the file map after it |
| `FatVolume.Volume.Attach` | kernel/fs.c:382-394 | the first free descriptor on the file, or -1 when all are used |
| `FatVolume.Volume.Open` | kernel/fs.c:353-395 | the whole call at the literal flag values 0x10, 0x20 and 0x40: which file it finds, creates or empties, file map, FAT, descriptor table and position after it |
| `FatVolume.Volume.ReadChunk` | kernel/fs.c:410-423 | a non-empty slice of the file up to the end of a cluster |
| `FatVolume.Volume.ReadData` | kernel/fs.c:406-425 | exactly the slice asked for |
| `FatVolume.Volume.ReadFd` | kernel/fs.c:397-426 | exactly the slice of the file from the position to len or the end, the position advanced by it, nothing else changed |
| `FatVolume.Volume.WriteChunk` | kernel/fs.c:445-460 | a chunk is spliced in, or the volume is full |
| `FatVolume.Volume.WriteData` | kernel/fs.c:435-461 | a prefix of the buffer is spliced in, all of it unless the volume is full |
| `FatVolume.Volume.WriteFile` | kernel/fs.c:435-466 | the file map after the write, entry included |
| `FatVolume.Volume.WriteFd` | kernel/fs.c:428-467 | r bytes are laid over the file at the position, no other file changes, the position advances by r, r is short only on a full volume; the chain grows by no cluster the write does not need; exactly when the call fails |
| `FatVolume.Volume.LseekFd` | kernel/fs.c:469-487 | the new position is the offset, the old position plus it, or the size of the file plus it; -1 and no change exactly if that is negative or the call is not one of these; kept in 32 bits |
| `FatVolume.Volume.Close` | kernel/fs.c:489-494 | the descriptor is closed, the files are unchanged |
| `FatRun.Run` | kernel/fs.c:353-494 | over any sequence of calls the invariant holds, every call does to files, descriptors and positions what it should and returns the bytes it should, and every file that was never opened is unchanged |
| `FatRun.Step` | kernel/fs.c:353-494 | one call: an open finds the first file of the name, empties it, or creates it exactly if there is none, it may and a slot is spare; a read returns the slice at the position of its descriptor, a write splices the whole buffer at the position of its descriptor unless the volume is full after it, a seek and a close change only the descriptor |
| `FatRun.ReadAtEnd` | kernel/fs.c:397-487 | after a seek to the end a read returns nothing |
| `FatRun.AppendAtEnd` | kernel/fs.c:428-487 | after a seek to the end a write that fits makes the contents the old ones followed by the bytes written |
| `MemWrap.AskedIs` | kernel/mem.c:217-219 | the bytes asked for are the bytes needed modulo 2^64 |
| `MemWrap.CarvedSound` | kernel/mem.c:172-183 | in 64 bits, growth and carving give a block of new memory at an end that has it, or none, if and only if the sums on the path stay below 2^64 |
| `MemWrap.DeliversIffSafe` | kernel/mem.c:216-258 | for every request on every memory: it gets a block that holds it, or none, with the ends in order, if and only if no sum on its path wraps, or its size wraps and there is no room at all |
| `MemWrap.HugeRequestRewinds` | kernel/mem.c:172-183 | a request of 2^64 - 64 bytes is granted and moves the end of the heap back by 24 |
| `MemWrap.GrowthWraps` | kernel/mem.c:229-234 | where the growth wraps, the committed end falls below the used one |
| `MemWrap.ModestIsSafe` | kernel/mem.c:216-258 | every request that ends below 2^64 wherever it is placed is safe |
| `MemWrap.RoomLeft` | kernel/mem.c:227-247 | room for two requests together is room for the first, and room for the second after it, growth by whole pages included |
| `MemArena.TilesApart` | kernel/mem.c:172-183 | blocks of a tiling do not overlap |
| `MemArena.TilesSum` | kernel/mem.c:321-330 | live and free bytes of a tiling add up to its length |
| `MemArena.ListSum` | kernel/mem.c:321-330 | the sizes on the free list add up to the free bytes of the tiling |
| `MemState.Conservation` | kernel/mem.c:321-340 | free list plus live blocks account for every byte of both used regions |
| `MemState.LiveApart` | kernel/mem.c:216-258 | the payloads of two live blocks do not overlap |
| `MemState.TookWhole` | kernel/mem.c:85-104 | taking a whole node off the list adds one live allocation and keeps the invariant |
| `MemState.TookSplit` | kernel/mem.c:85-104 | splitting a node adds one live allocation of the size asked for, returns the tail and keeps the invariant |
| `MemMerge.TookFresh` | kernel/mem.c:172-183 | a block carved off the end adds one live allocation and keeps the invariant |
| `MemMerge.ReleasedMerging` | kernel/mem.c:420-422 | putting a live block on the list removes exactly that allocation |
| `MemMerge.MergedMerging` | kernel/mem.c:119-133 | absorbing a free neighbour keeps the tiling and every allocation; the absorbed node has size 0 |
| `MemMerge.TouchLeft` | kernel/mem.c:106-114 | a list node that ends where the block begins is a non-empty left neighbour in the tiling, so an absorbed node of size 0 never looks adjacent again |
| `MemMerge.MergeDone` | kernel/mem.c:115-137 | when no node touches the block any more, no two free blocks of the region are neighbours |
| `MemMerge.Compacted` | kernel/mem.c:139-148 | without its nodes of size 0 the list is again exactly the free blocks |
| `MemHeap.Heap.Init` | kernel/mem.c:185-214 | an empty heap with nothing allocated |
| `MemHeap.Heap.SplitBlock` | kernel/mem.c:85-104 | if a header and eight bytes would be left over, the node is cut to the bytes asked for and the rest, a free block, takes its place on the list; otherwise the node is handed out with its own size; every other free size stays |
| `MemHeap.Heap.Acquire` | kernel/mem.c:150-170 | a smallest free block that fits, cut or whole as above, or none exactly if none fits |
| `MemHeap.Heap.FreshBlock` | kernel/mem.c:172-183 | a block off the end of the heap or swap region, exactly if it has the room; sums modulo 2^64 |
| `MemHeap.Heap.Grow` | kernel/mem.c:229-242 | the committed heap grows by whole pages, in 64-bit sums |
| `MemHeap.Heap.Obtain` | kernel/mem.c:227-247 | free list, then heap with growth, then swap; 0 exactly if none has room; the ends are those of the 64-bit computation; a block off an end has exactly the size asked for |
| `MemHeap.Heap.Alloc` | kernel/mem.c:216-258 | one new allocation, all others kept; 0 exactly if there is no room; its size is the request rounded up to eight, or, from the list, less than a header and eight bytes more |
| `MemHeap.Heap.ServedIff` | kernel/mem.c:216-258 | in every valid heap the requests that are served as they should be are exactly those `Alloc` admits |
| `MemHeap.Heap.Absorb` | kernel/mem.c:119-133 | one merge step, which shortens the tiling |
| `MemHeap.Heap.Coalesce` | kernel/mem.c:115-137 | the restarting loop ends with no two free neighbours and every allocation kept |
| `MemHeap.Heap.Compact` | kernel/mem.c:139-148 | the invariant holds again, every allocation kept |
| `MemHeap.Heap.Release` | kernel/mem.c:420-424 | exactly one allocation is gone and the invariant holds |
| `MemHeap.Heap.Free` | kernel/mem.c:386-425 | exactly that allocation is gone; the kernel panics exactly if the block is not live or the size is too large |
| `MemHeap.Heap.HeapFree` | kernel/mem.c:321-330 | the result plus the live blocks equals the committed heap plus 64 KiB |
| `MemHeap.Heap.NoOverlap` | kernel/mem.c:216-258 | no two live allocations overlap |
| `MemSums.UsedIs` | kernel/mem.c:256 | the used-bytes counter equals the sum of the live allocations |
| `MemSums.UsedFits` | kernel/mem.c:256 | the used-bytes counter is at most the used memory, so it never wraps |
| `MemRun.Run` | kernel/mem.c:216-425 | after any sequence of servable requests and releases every pointer held is live, large enough and clear of every other |
| `MemCtx.Contexts.Init` | kernel/memctx.c:41-45 | no context, no row |
| `MemCtx.Contexts.FindContext` | kernel/memctx.c:25-31 | the slot of the active context, -1 exactly if there is none |
| `MemCtx.Contexts.FindRow` | kernel/memctx.c:33-39 | the row of that pointer and context, or that there is none |
| `MemCtx.Contexts.Create` | kernel/memctx.c:47-61 | a context with a fresh id that owns nothing, all else as before; -1 exactly if every slot is active |
| `MemCtx.Contexts.Admit` | kernel/memctx.c:64-80 | the tests in front of the heap, the quota sum in 64 bits |
| `MemCtx.Contexts.Alloc` | kernel/memctx.c:63-94 | the context owns one more block, all else as before; 0 exactly for size 0, an unknown context, an exceeded quota, a full table or no room, and then nothing changes; a quota sum that wraps never lets a block through; used, peak, count and quota agree with the rows |
| `MemCtx.AmpleGrants` | kernel/memctx.c:63-94 | a context without a quota gets its block when there is a row and the heap has room |
| `MemCtx.StillAmple` | kernel/memctx.c:63-94 | the rows and the room a granted request did not need are still there |
| `MemCtx.OwnedWithin` | kernel/memctx.c:86-92 | the bytes charged to a context are live bytes |
| `MemCtx.Contexts.Free` | kernel/memctx.c:96-112 | the block is returned exactly if the context owns it; used and count agree with the rows |
| `MemCtx.Contexts.Destroy` | kernel/memctx.c:122-136 | context, rows and allocations as if the context had never existed |
| `MemCtx.RowAdded` | kernel/memctx.c:86-92 | charging a context for a new row keeps every context's counters equal to the sum and number of its rows |
| `MemCtx.RowDropped` | kernel/memctx.c:103-110 | refunding a row keeps every context's counters |
| `MemCtx.ClearEnd` | kernel/memctx.c:126-134 | clearing all rows of a context frees exactly its blocks and keeps the books |
| `MemCtx.SumUpdate` | kernel/memctx.c:86-110 | what one row adds to or takes from a context's totals |
| `Elf.AddU64Exact` | kernel/elf.c:7-10 | the overflow test is exact and the sum right without overflow |
| `Elf.MaskIsCongruence` | kernel/elf.c:40-43 | the mask test is vaddr ≡ offset modulo align, wrap-around included |
| `Elf.AcceptsIsLoadable` | kernel/elf.c:34-43 | the checks of a segment are exactly the conditions for a loadable segment |
| `Elf.Inspect` | kernel/elf.c:23-59 | accepts exactly the header tables whose load segments are loadable, whose hull holds the entry and is small enough, and returns the hull |
| `Elf.Examine` | kernel/elf.c:61-80 | accepts exactly the valid files and returns their range |
| `Elf.SegmentFits` | kernel/elf.c:101-109 | every copy stays inside file and allocation |
| `Elf.CopySegment` | kernel/elf.c:107 | exactly the file part of the segment is overwritten |
| `Elf.LastHeaderWins` | kernel/elf.c:99-108 | an image byte comes from the last header whose file part covers it |
| `Elf.UncoveredIsZero` | kernel/elf.c:97-108 | every other image byte is zero |
| `Elf.Load` | kernel/elf.c:82-116 | the check inside the loop never fails and the image is the specified one |
| `ElfLayout.ReadBack` | include/elf.h:22-54 | a file laid out from a header record and program header records, with anything between and behind, passes the header checks and is read back as those records |
| `ProcTable.CreatedTree` | kernel/proc.c:63-86 | a creation keeps the process tree if and only if it starts the table or its parent lives |
| `ProcTable.TerminalParentBreaks` | kernel/proc.c:63-86 | a process created under an exited one has a parent that is not alive, and none in the table once pid 1 has waited for it |
| `ProcTable.SwitchedTable` | kernel/proc.c:105-117 | after a switch exactly the new current process runs, and who lives is unchanged |
| `ProcTable.SwitchedIs` | kernel/proc.c:105-117 | entry by entry: pid is RUNNING, the old current process READY, nothing else changed |
| `ProcTable.LeftTree` | kernel/proc.c:178-187 | with the children moved to pid 1 an exit keeps the tree |
| `ProcTable.LeftTable` | kernel/proc.c:178-187 | an exit keeps pids, contexts and the running process consistent |
| `ProcTable.LeftIs` | kernel/proc.c:178-187 | entry by entry: pid is EXITED with its status, its children are children of pid 1, nothing else changed |
| `ProcTable.Childless` | kernel/proc.c:195-204 | a terminal process has no children and is not pid 1 |
| `ProcTable.RemovedTree` | kernel/proc.c:201-202 | removing a terminal process keeps the tree |
| `ProcTable.FirstStays` | kernel/proc.c:164-225 | pid 1 never leaves and never becomes terminal |
| `ProcTable.DescendsFromFirst` | kernel/proc.c:63-86 | from every process the parent links lead to pid 1 |
| `Proc.Kernel.Init` | kernel/proc.c:56-61 | an empty table |
| `Proc.Kernel.FindProc` | kernel/proc.c:26-32 | the entry of a pid, -1 exactly if there is none |
| `Proc.Kernel.Create` | kernel/proc.c:63-86 | -1 exactly without such a parent, out of memory exactly without a free process slot or a free context, otherwise a new READY process, field by field, with a context that owns nothing and has no quota; the pid counter moves exactly if a slot was free |
| `Proc.Kernel.SetCurrent` | kernel/proc.c:105-117 | succeeds exactly for living processes: pid runs, the process that ran is READY, nothing else changes |
| `Proc.Kernel.CurrentValid` | kernel/proc.c:123-126 | the gate is open exactly while there is a current process |
| `Proc.Kernel.ExitLocked` | kernel/proc.c:164-189 | the exact error codes, the panic exactly for a living pid 1, and every entry of the table after an exit |
| `Proc.Kernel.Wait` | kernel/proc.c:195-204 | succeeds exactly for an exited child, returns its status, removes it and all its memory; nobody has it as parent |
| `Proc.Kernel.KillProc` | kernel/proc.c:214-225 | the exact error codes, never a panic, and every entry of the table after a kill |
| `Proc.Kernel.ProcAlloc` | kernel/proc.c:241-246 | memory from the process's own context, all other contexts unmoved and its older blocks kept; 0 exactly if there is no such process or its context is refused; rows and room beyond the request remain |
| `Proc.Kernel.ProcFree` | kernel/proc.c:248-253 | succeeds exactly for blocks of the process's own context, all other contexts unmoved |
| `Proc.Kernel.Rollback` | kernel/proc.c:274-279 | the table as it was and a ledger without the child's context |
| `Proc.Kernel.LoadImage` | kernel/elf.c:82-116 | succeeds exactly for a valid file whose range the context gets; then the image bytes are the specified ones, the allocation is the process's, and the entry lies inside |
| `Proc.Kernel.AttachImage` | kernel/proc.c:88-103 | succeeds exactly if the image has a base and an entry and the context gets the stack; then entry, image and range are those of the image and the stack pointer is the end of 4096 bytes in a block of the process; nothing else changes |
| `Proc.Kernel.Equip` | kernel/proc.c:275-279 | image and stack: the entry point is the image base plus the offset of the ELF entry; succeeds whenever the file is valid and rows and room suffice |
| `Proc.Kernel.Furnish` | kernel/proc.c:273-279 | the file buffer, then image and stack, with the failure codes |
| `Proc.Kernel.FillImage` | kernel/proc.c:273-279 | -1 exactly for an unreadable file whose buffer was granted, success whenever the file is good and rows and room suffice; then entry point and image are those of the ELF file, in blocks of the process; otherwise the process is gone with all its memory |
| `Proc.Kernel.Stage` | kernel/proc.c:264-279 | -1 exactly for a missing parent, no file, an empty file, or an unreadable file whose buffer was granted; success whenever the file is readable and valid, a process slot, a context and three rows are free and the heap has room for file, image and stack together; then the child, of that parent, has the image of the file; every failure restores process table, contexts and allocations |
| `Proc.Kernel.SpawnExec` | kernel/proc.c:264-282 | -1 and success exactly when `Stage` says so from the state before; a negative result means that only the pid counter and the free memory have moved, used bytes unchanged; otherwise the child has run and ended and its starter is current again, or nobody if it was terminated |
| `Proc.Kernel.StartFlat` | kernel/proc.c:128-162 | starts exactly the startable processes: switch, run the body, exit, switch back; afterwards the process is terminal and the previous one current again, or nobody if it was terminated |
| `Proc.Kernel.Finish` | kernel/proc.c:154-161 | once the image has returned, the process exits and the previous one becomes current if it lives |
| `Proc.Kernel.Step` | kernel/syscall.c:41-104 | one system call behind the gate does exactly what the call does to the current process, keeps the table, the tree and every older process; without a current process nothing happens |
| `Proc.Kernel.Run` | kernel/proc.c:128-162 | any finite nesting of system calls is carried out in order, as the relation `Runs` says, with one running process at most, pids never reused, the dead staying dead |
| `VfsPath.NextSegment` | kernel/vfs.c:83-91 | the next segment of the path and the rest |
| `VfsPath.Joined` | kernel/vfs.c:83-91 | how slashes, a word and the rest of a path split |
| `VfsTree.WalkersAgree` | kernel/vfs.c:93-171 | whenever the parent walker yields parent and leaf, the full walker yields that parent's child of that name |
| `VfsRelative.RelativeResolve` | kernel/vfs.c:93-123 | from a directory with printed path p a path q resolves to what p + "/" + q resolves to from anywhere |
| `VfsRelative.DotsResolve` | kernel/vfs.c:93-123 | ".." behind the printed path of a node, or from it, is its parent, "." the node itself |
| `VfsRelative.RelativeAbove` | kernel/vfs.c:125-171 | the same for the parent walker, if and only if the directory is the root or q is not dots alone with a closing slash; otherwise there is no leaf from the directory, and its own name is the leaf behind its printed path |
| `VfsRelative.DotSlash` | kernel/vfs.c:125-171 | the path "./" from any directory but the root |
| `VfsRelative.SegmentsJoin` | kernel/vfs.c:83-91 | the segments of a path and of what follows it behind a slash |
| `VfsTree.Added` | kernel/vfs.c:49-62 | a creation keeps the tree if and only if no sibling carries the stored name |
| `VfsTree.FoundAgain` | kernel/vfs.c:215-224 | a path with a short leaf resolves to what was created for it |
| `VfsTree.Removed` | kernel/vfs.c:226-234 | removing a node without children keeps the tree |
| `VfsTree.MovedGrounded` | kernel/vfs.c:236-248 | after a move every node reaches the root if and only if the node was not above its new place |
| `VfsTree.MovedDistinct` | kernel/vfs.c:236-248 | after a move sibling names are distinct if and only if no other sibling carries the stored name |
| `VfsTree.MovedTree` | kernel/vfs.c:236-248 | both conditions together are necessary and sufficient |
| `VfsTree.AboveIsDir` | kernel/vfs.c:125-171 | in a tree the parent walker ends in a directory with a proper leaf name |
| `Vfs.FileSystem.Init` | kernel/vfs.c:201-209 | a tree with just the root |
| `Vfs.FileSystem.FindChild` | kernel/vfs.c:64-72 | the first child of that name in a directory, or -1 |
| `Vfs.FileSystem.ChildCount` | kernel/vfs.c:74-81 | the number of children |
| `Vfs.FileSystem.ResolvePath` | kernel/vfs.c:93-123 | the node the segments lead to, from the root or the working directory, as pinned by `VfsRelative.RelativeResolve` |
| `Vfs.FileSystem.ResolveParent` | kernel/vfs.c:125-171 | parent and leaf of the path, or that it has none, as pinned by `VfsRelative.RelativeAbove` |
| `Vfs.FileSystem.AllocNode` | kernel/vfs.c:49-62 | the first free slot receives the node with the next inode number, or all slots are used |
| `Vfs.FileSystem.Mkdir` | kernel/vfs.c:215-224 | when it succeeds, what it adds, that the path leads there, and when the tree survives |
| `Vfs.FileSystem.Unlink` | kernel/vfs.c:226-234 | when it succeeds, what it removes; the tree survives |
| `Vfs.FileSystem.Rename` | kernel/vfs.c:236-248 | when it succeeds, what it moves, and when the tree survives |
| `Vfs.FileSystem.Chdir` | kernel/vfs.c:250-256 | succeeds exactly for directories; the tree survives |
| `Vfs.FileSystem.Rmdir` | kernel/vfs.c:414-424 | when it succeeds, what it removes, and that the working directory moves to the root; the tree survives |
| `Vfs.FileSystem.OpenNode` | kernel/vfs.c:293-302 | without a duplicate check a creating open still adds no second child of the leaf's name |
| `Vfs.FileSystem.Grant` | kernel/vfs.c:309-318 | the first free descriptor, -1 exactly if all are used |
| `Vfs.FileSystem.Open` | kernel/vfs.c:293-319 | exactly when a file is created, emptied or left alone, and when the call fails; a truncating open leaves an empty file; descriptor, inode counter, and when the tree survives |
| `Vfs.FileSystem.BuildPath` | kernel/vfs.c:258-287 | ends on any table, prints the way from the root, fails exactly if that is too long, and resolves back to the node |
| `Vfs.RoundTrip` | kernel/vfs.c:258-287 | what is printed for a node of a tree resolves to it from every working directory |
| `VfsRun.NextTree` | kernel/vfs.c:215-424 | every careful operation keeps the tree |
| `VfsRun.TraceTree` | kernel/vfs.c:215-424 | every state of a run of careful operations is a tree |
| `VfsRun.Run` | kernel/vfs.c:215-424 | every operation does to table and working directory exactly what `Next` says of the state before it: success and failure are both determined by that state |
| `VfsRun.LongNamesCollide` | kernel/vfs.c:32-47 | a directory of 32 letters next to a file of 31 gets the same name |
| `VfsRun.SelfNestingCutsOff` | kernel/vfs.c:236-248 | moving "a" to "a/b" cuts it off from the root |
| `Line.TurnNear` | kernel/vga_draw.c:106-114 | every turn steps along the longer axis and stays within half a cell of the line |
| `Line.StepsNear` | kernel/vga_draw.c:99-115 | the t-th cell is the line rounded to the nearest cell, halves down |
| `Line.LineShape` | kernel/vga_draw.c:89-116 | every cell lies in the box, at most half a cell off, and only the last is the far corner |
| `Line.Ends` | kernel/vga_draw.c:99-105 | the line starts and ends at its two points |
| `Line.CalmIf` | kernel/vga_draw.c:94-114 | if three times the longer axis fits 32 bits, nothing on the line overflows |
| `VgaDraw.Canvas.DrawLine` | kernel/vga_draw.c:89-116 | visits exactly max(dx, dy) + 1 cells, the rounded line, and sets those on the grid, cell (x, y) at y * 80 + x, and no other |
| `VgaDraw.FillCells` | kernel/vga_draw.c:22-39 | exactly the cells of the range are set |
| `VgaDraw.PatternLanes` | kernel/vga_draw.c:26-28 | every lane of the 64-bit pattern is the cell |
| `VgaDraw.Canvas.FillRect` | kernel/vga_draw.c:118-151 | exactly the cells of the rectangle that are on the grid are set, cell (x, y) at y * 80 + x |
| `VgaDraw.Canvas.constructor` | kernel/vga_draw.c:41-61 | both buffers hold white blanks on black |
| `VgaDraw.Canvas.CopyTo` | kernel/vga_draw.c:179-196 | the copies in words make the buffers equal |
| `VgaDraw.Canvas.PresentFrame` | kernel/vga_draw.c:169-196 | on the framebuffer the two buffers are equal afterwards and a screen that showed the old cells shows the new ones; in text mode the video memory holds the cells |
| `VgaDraw.Canvas.LineOnScreen` | kernel/vga_draw.c:89-196 | a line followed by a present: on a screen 640 pixels wide or wider every pixel of the grid shows the cell of the line if its column and row are visited, and what the back buffer held otherwise |
| `VgaDraw.RowsInPlace` | kernel/framebuffer.c:341-364 | a pixel of column x and row y shows cell y * 80 + x if and only if the screen is at least 640 pixels wide or y is 0 |
| `VgaDraw.NarrowShifts` | kernel/framebuffer.c:341-364 | on a concrete narrower screen the second row begins with the last cell of the first |
| `Framebuffer.PixelsApart` | kernel/framebuffer.c:180 | different pixels occupy disjoint bytes |
| `Framebuffer.Screen.PixelAt` | kernel/framebuffer.c:180 | the bytes of pixel (x, y) begin at y * pitch + x * bpp |
| `Framebuffer.ColorValue` | kernel/framebuffer.c:181-183 | the bytes stored for a colour, lowest first, stand for the colour modulo 256^n |
| `Framebuffer.Screen.WritePixel` | kernel/framebuffer.c:164-184 | exactly one pixel changes, none off the screen or while disabled |
| `Framebuffer.Screen.FillSquare` | kernel/framebuffer.c:389-395 | exactly the pixels of the square get the colour |
| `Framebuffer.Screen.DrawGlyph` | kernel/framebuffer.c:384-397 | exactly the pixels of the cell show its glyph |
| `Framebuffer.GridOnScreen` | kernel/framebuffer.c:341-360 | the scaled grid always fits the screen, so the margins do not wrap |
| `Framebuffer.LayoutBest` | kernel/framebuffer.c:341-360 | as many columns and rows as there are and fit, at the largest scale that fits, with margins that differ by at most one pixel |
| `Framebuffer.InkRow` | kernel/framebuffer.c:384-389 | the colours of a row of a cell give the row of its glyph back, highest bit first, "?" for characters without a glyph |
| `Framebuffer.Screen.Present` | kernel/framebuffer.c:337-400 | every pixel of the grid shows its cell, every other byte is unchanged |
| `Framebuffer.Screen.PresentDirty` | kernel/framebuffer.c:402-470 | on a screen that shows the old cells the result is what a full present of the new ones leaves |
| `Heapq.List.SiftDown` | micropython/extmod/modheapq.c:41-54 | the item finds its place: a heap from start on, the same items |
| `Heapq.List.SiftUp` | micropython/extmod/modheapq.c:56-71 | down to a leaf and back: a heap from the position on, the same items |
| `Heapq.List.Push` | micropython/extmod/modheapq.c:73-78 | a heap with one more item |
| `Heapq.List.Pop` | micropython/extmod/modheapq.c:81-94 | a heap with one item less, which was a least one; an error exactly on the empty heap |
| `Heapq.List.Heapify` | micropython/extmod/modheapq.c:97-103 | a heap of the same items |
| `Heapq.RootIsLeast` | micropython/extmod/modheapq.c:86 | the first item of a heap is a least one |
| `Heapq.Raised` | micropython/extmod/modheapq.c:43-52 | one step up keeps the order everywhere but above the item |
| `Heapq.Lowered` | micropython/extmod/modheapq.c:60-68 | one step down of the hole keeps the order everywhere but at the hole |
| `Base64.LetterSextet` | micropython/extmod/modbinascii.c:52-66 | the decoder's table inverts the encoder's |
| `Base64.LetterIs` | micropython/extmod/modbinascii.c:148-165 | value v is written as character v of the alphabet of section 4 of RFC 4648, 64 as "=" |
| `Base64.GroupBits` | micropython/extmod/modbinascii.c:130-133 | the four values of a group are the 24 bits of its three bytes, as in section 4 of RFC 4648 |
| `Base64.FillValues` | micropython/extmod/modbinascii.c:126-146 | the first pass writes the values of every group and the pads |
| `Base64.Encode` | micropython/extmod/modbinascii.c:111-169 | the two passes and the newline give the specified encoding |
| `Base64.Decode` | micropython/extmod/modbinascii.c:68-107 | the state machine over shift, nbits and hadpad; the output never outgrows len * 3 / 4 |
| `Base64.RoundTrip` | micropython/extmod/modbinascii.c:52-169 | decoding an encoding gives the bytes back, with and without newline, never the padding error |
| `Base64.Truncated` | micropython/extmod/modbinascii.c:68-107 | a string of letters decodes exactly if its bits fill whole bytes, to that many bytes; a truncated group is the padding error |
| `Base64.Skipped` | micropython/extmod/modbinascii.c:88-91 | a character that is neither a letter nor a pad is skipped wherever it stands |
| `Base64.BrokenLines` | micropython/extmod/modbinascii.c:68-107 | a newline put anywhere into an encoding, also inside a group, does not change what it decodes to |

## Left out

- FatVolume.Volume.Open: takes the 11-byte short name; turning a path into a short name (kernel/fs.c:205-248) is not modelled, and a file that is open may not be opened with O_TRUNC, because size and first cluster are cached per descriptor.
- FatVolume.Volume.WriteFd: no other descriptor may be open on the same file, because size and first cluster are cached per descriptor (kernel/fs.c:386-390).
- FatVolume.Volume.Mount: the volume must be well-formed: below 4 GiB, room for the tables, equal FAT copies, disjoint ended chains, and zero slots behind the end marker of the directory; a volume that is not accepted is left in raw mode, which is not modelled.
- FatRun.Run: the client leaves out the two calls above that the descriptor cache does not allow.
- Raw access to the storage (`fs_read`, `fs_write`) and `fs_file_size`: bypass the file system or read one field.
- MemHeap.Heap.Alloc: the request must be servable, that is, its 64-bit sums must not wrap in a way that `MemWrap.DeliversIffSafe` shows to be wrong; on any other request the memory is corrupted and nothing is promised.
- MemHeap.Heap.Free: an address inside the managed regions follows a block header; the source would read any other one as if it did.
- MemHeap.Heap.Init: heap and swap are disjoint regions outside the first and the last page of the address space; the contents of memory, the debug fill and the log are not modelled.
- MemCtx.Contexts.Alloc: a request that gets past the tests must be servable by the heap.
- MemRun.Run: leaves out requests that are not servable.
- Proc.Kernel.Init: the heap lies in the lower quarter of the address space and files are smaller than that, so that every spawn is servable.
- VRAM locks and per-application blocks (kernel/mem.c:267-384, 427-478): table bookkeeping.
- Proc.Kernel.Stage: room is stated for the end of the heap; holes of the free list and the swap arena may serve a spawn where that condition fails.
- Proc.Kernel.SpawnExec: the parent, if it exists, is alive, which the gate ensures; the file behind the path is a parameter that may be missing, empty or unreadable.
- Proc.Kernel.Step: system calls on files, memory (`SYS_MEM_ALLOC`, `SYS_MEM_FREE`), time and display are not steps of a run; a program that frees memory of a context by itself is outside the model.
- Proc.Kernel.Create: pids and inode numbers are unbounded; names, working directories and per-process descriptors are not modelled.
- Proc.Kernel.ExitLocked: closing descriptors is not modelled; `panic` is a flag after which nothing runs.
- Vfs.FileSystem.Open: the data of files, `vfs_read`, `vfs_write` and `vfs_getdents` are not modelled, so nothing is said about what a descriptor names after unlink or about gaps left by seeking.
- Vfs.FileSystem.ResolvePath: the table is initialised, which the source checks in this walker only.
- VgaDraw.Canvas.FillRect: the outline form of `vga_draw_rect` is not modelled.
- Framebuffer.Screen.WritePixel: not rotated, at most four bytes per pixel, rows of at least width pixels, and a buffer below 4 GiB, so that the 32-bit row offset does not wrap.
- Framebuffer.Screen.Present: eight times the number of columns and of rows fits 32 bits. Palette and font are parameters.
- VgaDraw.Canvas.DrawLine: the line must not overflow 32 bits on its way; `Line.CalmIf` gives a simple sufficient test.
- Heapq.List.Push: the comparison is a strict weak order that neither fails nor changes the list.
- Colour packing, blitting, alpha blending, the console and the boot logo: user interface.
- Drivers, interrupts, the system-call dispatch beyond the gate, and the rest of MicroPython.
