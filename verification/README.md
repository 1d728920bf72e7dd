# Verified models of LosTacOS

LosTacOS is a small x86_64 kernel. This project models the parts of it that keep invariants over
unbounded runs or implement public formats, and proves what they promise. Each group has a value
model, where the main theorems are, and classes whose methods follow the kernel's loops and in-place
updates and are proved to refine the value model.

- `common`: what several modules share.
- `bits`, `huffman`, `deflate`, `inflate`, `gzip`: the DEFLATE decoder against an encoder written
  from RFC 1951. Choices an encoder is free to make are part of the encoded blocks.
- `pmm`, `pagetables`, `paging`, `fork`: the page bitmap, four-level page tables over frames of 512
  words (section 4.5 of the Intel SDM, Volume 3A), the fork copy and teardown.
- `elf`: the program loader, on top of the page tables, with a byte view of frames.
- `heap`: the boundary-tag allocator. Footers lie in client memory; what survives arbitrary footers
  and what needs honest ones is stated separately.
- `sched`, `scheduler`: the scheduler as a transition system over whole runs, and the linked run list
  with task destruction and CR3.
- `fat`, `fatchain`, `fat32`: the allocation table behind its one-sector cache (section 4, "FAT", of
  the Microsoft FAT specification), cluster chains, file reads and writes, directory search.
- `pipes`, `syscalls`: reference-counted pipe ends over all processes and the byte channel.
- `vtree`, `vfs`: the VFS tree, path resolution, path printing, creation and removal.
- `words`, `strings`: the word-at-a-time memory and string routines.

`dafny verify dfyconfig.toml` checks the whole project.

Where the code does not meet a property, the model keeps the code's behaviour, and the exact condition
and a failing state are proved:

- pipe counts: `Pipes.Dup2Exact`, `Pipes.DupFdExact`, `Pipes.FailedForkExact` and `Pipes.LeaveExact`, with
  `Pipes.CountsBroken`;
- writes that end on a cluster boundary: `Fat32.Volume.WriteTwice`, with `Fat32.Volume.SplitWriteLoses`;
- overwritten footers: `Heap.FooterDecides`, with `Heap.OverwrittenFooter`;
- removing a file that has children: `Vtree.RemoveExact`, with `Vfs.RemovedFileOrphans`;
- dot components in creation: `Vfs.FileTree.CreateDirPath` and `Vfs.FileTree.CreateFilePath`, with `Vfs.DotIsMade`;
- an allocation request near the 64-bit limit: `Heap.AlignCovers` and `Heap.KernelHeap.Kmalloc`, with
  `Heap.WrappedRequest`;
- freeing page 0: `Pmm.Allocator.FreePage`, with `Pmm.Allocator.NullIsFreed`;
- regions that do not start on a page boundary: `Pmm.FreedInside`, with `Pmm.FreedOutside`.

The allocation scan of `alloc_cluster` stops two clusters before the end of the volume; the model does too.
The comment in `create_address_space` speaks of one private PDPT slot; the code copies the whole first PDPT,
and the model follows the code. The framebuffer is mapped for user mode in the kernel's own tables at boot
(src/kernel/drivers/framebuffer.cpp:89-93), so every process inherits those pages; the invariant allows
framebuffer pages in anyone's tables.

## Model

| member | source | states |
|---|---|---|
| Gzip.MemberRoundTrip | src/lib/gzip.cpp:114-217 | Every gzip member (any header per section 2.3 of RFC 1952, any list of stored, fixed and dynamic blocks per sections 3.2.3 to 3.2.7 of RFC 1951, any trailer) whose output fits decodes to exactly the bytes its blocks denote |
| Gzip.MemberTruncated | src/lib/gzip.cpp:114-217 | A member whose output does not fit gives exactly the first bytes that fit, for every buffer size; only behind a stored block that was cut can the reader fault |
| Gzip.EveryStringDecodes | src/lib/gzip.cpp:114-217 | Every byte string has a member that decodes to it into a buffer of just its size, so the round trip misses no output |
| Gzip.Decompress | src/lib/gzip.cpp:114-217 | The loop over mutable reader state and output buffer computes the reply of the functional decoder: a refusal, which leaves destination and size variable alone, the decoded bytes with their number, also without a size variable, or a fault exactly where the code leaves its arrays |
| Inflate.StreamInverts | src/lib/gzip.cpp:150-211 | The block loop inverts the encoder on every valid block list, wherever the stream starts and whatever follows it |
| Inflate.StreamCut | src/lib/gzip.cpp:150-211 | The block loop over a buffer that is too small ends with a full buffer of the first bytes, and without stored blocks never faults |
| Inflate.BodyInverts | src/lib/gzip.cpp:155-207 | One stored, fixed or dynamic body is read back to the output it denotes and leaves the reader exactly behind it |
| Inflate.StoredInverts | src/lib/gzip.cpp:155-164 | A stored block is found at the next byte boundary after any filler bits and copied whole |
| Inflate.TokensInvert | src/lib/gzip.cpp:88-112 | Decoding the codes of a token list, end-of-block code included, applies exactly those tokens to the output |
| Inflate.TokenInverts | src/lib/gzip.cpp:90-109 | One literal or match, spelled with any extra bits, is decoded to its effect on the output |
| Inflate.CopyRepeats | src/lib/gzip.cpp:104-108 | Copying a match byte by byte repeats the window of the last `dist` bytes, also where source and target overlap |
| Inflate.CodesInvert | src/lib/gzip.cpp:178-206 | The header of a dynamic block yields the literal and distance code lengths it encodes |
| Inflate.LengthsInvert | src/lib/gzip.cpp:187-203 | Reading run-length coded code lengths expands exactly the operations that wrote them, repeats across the literal/distance border included |
| Inflate.CodeLengthsInvert | src/lib/gzip.cpp:180-183 | The permuted three-bit lengths are restored to symbol order; lengths not sent are zero |
| Inflate.OrderComplete | src/lib/gzip.cpp:181 | Every one of the 19 code length symbols has a place in the order |
| Deflate.OrderClosed | src/lib/gzip.cpp:181 | The order table is that of section 3.2.7 of RFC 1951 in closed form: 16, 17, 18, 0, and then 8 + i and 7 - i by turns |
| Deflate.LengthClosed | src/lib/gzip.cpp:74-79 | The length bases and extra bits follow the doubling scheme of section 3.2.5 of RFC 1951, with 258 by itself |
| Deflate.DistanceClosed | src/lib/gzip.cpp:81-86 | The distance bases and extra bits follow the doubling scheme of section 3.2.5 of RFC 1951 |
| Deflate.FixedCodes | src/lib/gzip.cpp:166-174 | The canonical codes of the fixed lengths are the bit patterns tabulated in section 3.2.6 of RFC 1951, literal by literal and distance by distance |
| Deflate.BlockHeader | src/lib/gzip.cpp:151-155 | A block begins with its final bit and its type, stored 00, fixed 01, dynamic 10, low bit first |
| Huffman.CodeBitsAt | src/lib/gzip.cpp:60-72 | Huffman codes are sent most significant bit first |
| Deflate.EveryMatch | src/lib/gzip.cpp:74-86 | Every length from 3 to 258 and distance from 1 to 32768 is spelled by some token, so the encoder leaves out no match the format allows |
| Deflate.EveryOutput | src/lib/gzip.cpp:155-164 | Stored blocks alone denote every byte string, from any bit position and after any output |
| Deflate.FixedCodesFit | src/lib/gzip.cpp:165-175 | The fixed literal and distance lengths form codes with Kraft sum exactly 1 |
| Huffman.DecodeCanonical | src/lib/gzip.cpp:60-72 | For every length vector with Kraft sum at most 1, the decoder fed the canonical code of a symbol (section 3.2.2 of RFC 1951) followed by anything returns that symbol and consumes exactly its bits |
| Huffman.CodesFit | src/lib/gzip.cpp:60-72 | With Kraft sum at most 1 every canonical code of length l is an l-bit number |
| Huffman.FirstCodeBeyond | src/lib/gzip.cpp:63-70 | Codes of a longer length lie beyond every shorter code extended to that length, so the code is prefix-free |
| Huffman.Table.Build | src/lib/gzip.cpp:43-58 | The in-place counting sort leaves, for every length, its number of symbols and the symbols in increasing order |
| Huffman.Table.CountLengths | src/lib/gzip.cpp:44-47 | The counts are the numbers of symbols per length |
| Huffman.Table.PlaceSymbol | src/lib/gzip.cpp:53-57 | Placing the next symbol keeps all earlier ones and advances the offset of its length |
| Gzip.State.GetBits | src/lib/gzip.cpp:25-36 | The reader returns the next n bits, lowest first, zeros past the end, and never keeps eight or more bits buffered |
| Gzip.State.DecodeSymbol | src/lib/gzip.cpp:60-72 | The bitwise loop over the built table equals the functional decoder: same symbol or -1, same number of bits consumed |
| Gzip.State.InflateBlock | src/lib/gzip.cpp:88-112 | The in-place loop appends to the output what the functional decoder of the block appends, and reports the same success or failure |
| Gzip.State.CopyBack | src/lib/gzip.cpp:104-108 | The copy loop stops at a full output, otherwise appends the repeated window |
| Gzip.State.Realign | src/lib/gzip.cpp:156-157 | Since fewer than eight bits are buffered, dropping them puts the reader on the next byte boundary |
| Gzip.State.CopyStored | src/lib/gzip.cpp:155-164 | A stored block equals the functional step, also when the input ends early or the output is full |
| Gzip.State.InflateFixed | src/lib/gzip.cpp:165-176 | The fixed tables are built and the block decoded as the format defines |
| Gzip.State.ReadCodeLengthCode | src/lib/gzip.cpp:180-183 | The code length code is read as the functional reader reads it |
| Gzip.State.ReadDynamic | src/lib/gzip.cpp:178-206 | The code lengths are those of the functional reader; a failed code or an overrun of the 320 lengths is reported instead of being written out of bounds |
| Gzip.State.ReadLengthList | src/lib/gzip.cpp:186-204 | The loop over code length symbols reads what the functional reader reads, or reports an overrun |
| Gzip.SkipHeader | src/lib/gzip.cpp:118-137 | The offset is that of the first data byte, or there is none |
| Gzip.State.InflateBlocks | src/lib/gzip.cpp:150-211 | The block loop ends with the output and the outcome of the functional block loop |
| Gzip.FixedLengths | src/lib/gzip.cpp:166-174 | The four fill loops give the fixed code lengths of section 3.2.6 of RFC 1951 |
| Gzip.HeaderSkipped | src/lib/gzip.cpp:118-137 | The header arithmetic finds the first data byte of every well-formed header with any set of optional fields |
| Bits.PackHolds | src/lib/gzip.cpp:25-36 | Bits packed into bytes lowest first are read back unchanged, whatever bytes come before and after |
| Pmm.Allocator.constructor | src/mm/pmm.cpp:73-112 | After boot the free pages are the available regions without the low megabyte and the kernel image, the counter is their number and no free page is below the cursor |
| Pmm.Allocator.SetBit | src/mm/pmm.cpp:27-29 | Exactly one page becomes used |
| Pmm.Allocator.ClearBit | src/mm/pmm.cpp:31-33 | Exactly one page becomes free |
| Pmm.Allocator.ReserveRegion | src/mm/pmm.cpp:39-51 | The free set loses exactly the touched pages, none when the 64-bit end wraps around below the start, and the counter and cursor invariants survive |
| Pmm.TouchedExact | src/mm/pmm.cpp:39-51 | A reservation takes exactly the pages that hold one of its bytes |
| Pmm.Allocator.FreeRegion | src/mm/pmm.cpp:53-67 | The free set gains exactly the whole pages of the region inside the bitmap, in 64-bit arithmetic |
| Pmm.FreedExact | src/mm/pmm.cpp:53-67 | A region frees exactly the pages that end inside it and after its first byte |
| Pmm.FreedInside | src/mm/pmm.cpp:53-67 | The freed pages lie inside the region if and only if it starts on a page boundary or frees none |
| Pmm.FreedOutside | src/mm/pmm.cpp:53-67 | An instance: a region that starts in the middle of a page frees that page |
| Pmm.AvailableExact | src/mm/pmm.cpp:86-101 | A page is available at boot exactly when one of the available regions, cut to what the bitmap holds, frees it |
| Pmm.Allocator.AllocPage | src/mm/pmm.cpp:114-144 | The lowest free page is returned and removed, 0 exactly when none is free or page 0 is; the wrap-around loop never finds one |
| Pmm.Allocator.FreePage | src/mm/pmm.cpp:146-165 | The page becomes free and the cursor moves back so that no free page is below it; the invariant survives exactly when the page is not page 0 |
| Pmm.Allocator.NullIsFreed | src/kernel/sched/scheduler.cpp:62-71 | An instance: the null answer of a full allocator, mapped unchecked as a stack page and freed with the process, makes the next request fail although a page is free |
| Paging.Machine.constructor | src/mm/paging.cpp:134-146 | The cleared kernel table translates nothing |
| Paging.Machine.AllocFrame | src/mm/paging.cpp:107-132 | A zeroed frame, the lowest free one, or none exactly when no frame below 256 MB is free, and then the free set is unchanged |
| Paging.Machine.Descend | src/mm/paging.cpp:221-257 | One level: an absent table is allocated empty, a present one gets its flags raised, an open one stays as it is in whoever's table; no translation of any address space changes |
| Paging.Machine.FindTable | src/mm/paging.cpp:208-257 | The three upper levels lead to the page table of the address, all of them present, writable and user for a user page; an open path is found without a change; three free frames suffice |
| Paging.Machine.MapPage | src/mm/paging.cpp:208-271 | Success sets the translation of exactly this page in exactly this space; failure changes no translation and happens only when fewer than three frames below 256 MB were free; mapping an inherited framebuffer page once more, through tables shared with the kernel, changes nothing |
| Paging.Machine.MapRange | src/mm/paging.cpp:273-286 | A run of kernel pages is mapped, as at boot the framebuffer for user mode, and no other translation changes; on failure a first part of the run is mapped |
| Paging.PagesExact | src/mm/paging.cpp:274-286 | The pages of a range are exactly those that hold one of its bytes |
| Paging.Machine.UnmapPage | src/mm/paging.cpp:288-315 | Exactly this translation disappears, or nothing changes if it was absent |
| Paging.Machine.VirtToPhys | src/mm/paging.cpp:86-105 | The walk by null pointers agrees with the walk by present bits: a mapped page gives its frame, a missing table gives 0, and otherwise the answer is what the leaf entry in the walked table names, present or not |
| Paging.Machine.CreateSpace | src/mm/paging.cpp:363-401 | A new space maps what the kernel maps in the upper half and the first slot, has no user page but the framebuffer's and owns the rest of the lower half; all other spaces keep their translations; a failure gives the first frame back, changes nothing visible and happens only with at most one frame left; success takes exactly two frames |
| PageTables.WalkMisses | src/mm/paging.cpp:208-271 | A walk does not see a write to an entry off its path or in a foreign space's table |
| PageTables.WalkEscalates | src/mm/paging.cpp:231-257 | Raising flags of upper entries changes no translation and closes no path |
| PageTables.WalkHangs | src/mm/paging.cpp:221-229 | Hanging an empty table into an absent entry adds no translation |
| PageTables.SetLeafLookups | src/mm/paging.cpp:260-262 | Writing a leaf entry changes the translation of one address of one space only |
| PageTables.SetLeafKeeps | src/mm/paging.cpp:260-262 | Writing a leaf keeps the forest of tables, the page records and user reachability |
| PageTables.OneTable | src/mm/paging.cpp:208-271 | An address space has at most one table at each place |
| PageTables.KernelUserIsFb | src/mm/paging.cpp:363-401 | The only user pages of the kernel are those of the framebuffer |
| PageTables.UserRecord | src/mm/paging.cpp:148-206 | A user page outside the framebuffer lies in the lower half and is recorded under its space and address |
| PageTables.SharedSlot | src/mm/paging.cpp:381-398 | In the gigabytes the kernel's first PDPT maps, every space translates as the kernel does, in every reachable state |
| PageTables.AddSpaceLookup | src/mm/paging.cpp:368-398 | The copied tables of a new space translate exactly the kernel's upper half and first slot |
| PageTables.AddSpaceOwn | src/mm/paging.cpp:381-398 | Outside the gigabytes the kernel's first PDPT maps, a new space uses only tables of its own |
| PageTables.VaDigits | src/mm/paging.cpp:208-213 | The four table indices are the digits of the page number in base 512, the PML4 index first |
| Elf.EntryBits | src/mm/paging.cpp:208-271 | Present, writable and user are bits 0 to 2 of an entry and the frame number starts at bit 12 |
| Fork.CloneUserPages | src/mm/paging.cpp:404-468 | After success every user page of the parent outside the framebuffer is in the child at the same address with the same flags and bytes in a new frame of its own, and inherited framebuffer pages stay; the parent and every other space keep translations and bytes, also on failure; it fails only with at most one frame left, never with four free frames for each user page at the start, and then every framebuffer page is shared too |
| Fork.CloneMeans | src/mm/paging.cpp:404-468 | In terms of entries: a user entry outside the framebuffer has a partner with the same flags and a formerly free frame that holds the same words; other entries are not touched |
| Fork.CopyPage | src/mm/paging.cpp:450-461 | One page is copied to a frame that was free, and given back if it cannot be mapped; it fails only when memory runs out |
| Fork.SharePage | src/mm/paging.cpp:445-448 | A framebuffer page is shared with the parent's entry, or stays unmapped if memory was short, and one that the child inherited through kernel tables stays as it is |
| Fork.CloneNext | src/mm/paging.cpp:429-462 | A copied page stays copied while later pages are handled |
| Fork.DestroyUserPages | src/mm/paging.cpp:148-206 | Every user page outside the framebuffer is freed once and unmapped; no other frame is freed and no other space's translation changes |
| Fork.DestroyMeans | src/mm/paging.cpp:148-196 | In terms of entries: no user entry is left but those of the framebuffer, every other frame is free, and other entries stay |
| Fork.FreeUserPage | src/mm/paging.cpp:181-187 | One own page is unmapped and its frame returned |
| Fork.PageRecord | src/mm/paging.cpp:148-206 | Two translations of own pages never share a frame, so nothing is freed twice |
| Fork.ForkAndExit | src/mm/paging.cpp:148-468 | Create, copy and destroy, for every parent: the free count returns to its start minus exactly the table frames allocated, and every other space is as before, whatever the copy achieved; when no child can be made nothing visible changes; the child is made and the copy is complete whenever two frames and four for each user page are free |
| Heap.RunSound | src/mm/heap.cpp:53-146 | In every run of allocations and releases of live pointers, with arbitrary footers, the blocks tile the arena in address order and the cursor is on one of them |
| Heap.RunCoalesced | src/mm/heap.cpp:53-146 | In every run with honest footers no two neighbouring blocks are both free |
| Heap.RunRestores | src/mm/heap.cpp:88-146 | With honest footers a heap with nothing allocated is back to its single initial block |
| Heap.LiveDisjoint | src/mm/heap.cpp:53-86 | Live allocations never overlap, and a header fits between two of them |
| Heap.TakeLive | src/mm/heap.cpp:60-78 | An allocation adds exactly one live range and moves none |
| Heap.FreeLive | src/mm/heap.cpp:88-146 | A release removes exactly that live range, whatever block the footer names |
| Heap.StepLive | src/mm/heap.cpp:53-146 | Each call changes the live allocations by at most one; a granted range covers the aligned request |
| Heap.FooterDecides | src/mm/heap.cpp:124-145 | In a heap without free neighbours, releasing a live block leaves none exactly when the block before it is not free or the footer names a free block other than the released one |
| Heap.OverwrittenFooter | src/mm/heap.cpp:124-145 | An instance, call by call: three allocations, a write to the owner's last word and two releases lead from boot to two free neighbours, while the blocks still tile the arena |
| Heap.FooterMissesHeaders | src/mm/heap.cpp:14-16 | No footer the allocator writes lies on a header field, not even that of an empty block, which lies in its header's padding |
| Heap.NoFit | src/mm/heap.cpp:59-85 | A failed circular scan has seen every block |
| Heap.FirstFitIsFirst | src/mm/heap.cpp:53-86 | Next fit: no block between the cursor and the block taken, around the end of the list, is large enough |
| Heap.MallocExact | src/mm/heap.cpp:53-86 | The block taken is split exactly when the rest holds a header and 16 bytes; all other blocks stay, and the cursor is on the block taken |
| Heap.FreeCursor | src/mm/heap.cpp:88-147 | After a release the cursor's address is the lower of the old one and the block's, moved to the start of the joined block when that swallows it |
| Heap.AlignCovers | src/mm/heap.cpp:10-12 | Rounding up covers the request exactly unless the 64-bit addition wraps |
| Heap.KernelHeap.constructor | src/mm/heap.cpp:34-51 | One free block fills the arena |
| Heap.KernelHeap.Kmalloc | src/mm/heap.cpp:53-86 | Headers, links, footers and cursor in memory follow the list model; null exactly when no free block is large enough, so the circular scan ends; the block holds the request if and only if rounding it up does not wrap |
| Heap.WrappedRequest | src/mm/heap.cpp:10-86 | A family of failures: on a new heap every request within 15 bytes of 2^64 gets a block that is smaller than the request |
| Heap.KernelHeap.TakeBlock | src/mm/heap.cpp:60-78 | The split writes the two headers and footers of the list model |
| Heap.KernelHeap.Kfree | src/mm/heap.cpp:88-146 | The memory after a release is that of the list model; null, foreign pointers and free blocks change nothing |
| Heap.KernelHeap.MergeWithNext | src/mm/heap.cpp:101-122 | The forward merge and the cursor moves follow the model |
| Heap.KernelHeap.MergeWithPrev | src/mm/heap.cpp:124-145 | The backward merge follows the model for every footer that names a list block |
| Heap.KernelHeap.Predecessor | src/mm/heap.cpp:126-135 | The scan finds the block linked in front of the released one |
| Heap.KernelHeap.Scribble | src/mm/heap.cpp:14-16 | A client writing any word of a live block hits no header field of any block, and footers stay honest exactly unless it changes its own footer |
| Heap.KernelHeap.HonestNames | src/mm/heap.cpp:18-23 | An honest footer names the preceding block |
| Sched.RunInv | src/kernel/sched/scheduler.cpp:194-658 | In every reachable state the run list is duplicate-free, at most one task is running and it is the current one, nothing is blocked, and the current task is listed or the kernel's |
| Sched.StepKeeps | src/kernel/sched/scheduler.cpp:390-658 | Each tick, exit, start and collection keeps that invariant |
| Sched.BoundedBypass | src/kernel/sched/scheduler.cpp:402-443 | While a listed task stays ready no task is picked twice, across any interleaving of new tasks and removals |
| Sched.WaitBound | src/kernel/sched/scheduler.cpp:402-443 | A ready task waits at most one pick for each other task listed when it began to wait and one for each task started since, in every run |
| Sched.StepPassed | src/kernel/sched/scheduler.cpp:390-454 | A task that had its turn does not get ahead of a waiting one again, whatever step comes |
| Sched.PickBetween | src/kernel/sched/scheduler.cpp:402-443 | The picked task lies between the current one and any ready task, in circular order |
| Sched.FallbackOnlyDead | src/kernel/sched/scheduler.cpp:424-438 | The fallback scan runs only when every listed task is dead, and then finds nothing |
| Sched.ScheduleExact | src/kernel/sched/scheduler.cpp:402-443 | A schedule, task by task: the dead are gone, a task that may run runs if there is one, the task that ran is ready, and every other state stays |
| Sched.ExitIsDead | src/kernel/sched/scheduler.cpp:509-530 | The task that exits is dead afterwards and still listed; no other state changes but that of the next task |
| Sched.ExitedIsGone | src/kernel/sched/scheduler.cpp:509-530 | In every run, a task that exited is never picked again and is off the list after the first schedule that finds another task current |
| Sched.StartCollectExact | src/kernel/sched/scheduler.cpp:604-658 | A new task is ready at the tail under a new name, a collected one is off the list, and nothing else changes |
| Sched.ReapKeeps | src/kernel/sched/scheduler.cpp:23-35 | Reaping removes exactly the dead tasks other than the current one and keeps the invariant |
| Scheduler.RunQueue.constructor | src/kernel/sched/scheduler.cpp:194-209 | Boot: the kernel task runs and the list is empty |
| Scheduler.RunQueue.DestroySpace | src/kernel/sched/scheduler.cpp:651-653 | Only an existing space that is not loaded in CR3 is torn down; every caller shows it |
| Scheduler.RunQueue.RemoveAndDestroy | src/kernel/sched/scheduler.cpp:631-658 | The linked list, its head and tail lose exactly that task, its space and record are freed once, and CR3 is not touched; null and the current task are left alone |
| Scheduler.RunQueue.Unlink | src/kernel/sched/scheduler.cpp:635-648 | The chain of records without the task is still linked from head to tail |
| Scheduler.RunQueue.ReapDead | src/kernel/sched/scheduler.cpp:23-35 | Walking by saved next pointers refines reaping although records are freed on the way |
| Scheduler.RunQueue.Tick | src/kernel/sched/scheduler.cpp:390-454 | A tick refines the abstract step on the linked list |
| Scheduler.RunQueue.PickNext | src/kernel/sched/scheduler.cpp:399-453 | The choice of the next task refines the abstract one; the fallback never switches |
| Scheduler.RunQueue.FindReady | src/kernel/sched/scheduler.cpp:402-422 | The circular search over next pointers returns the first ready task or none, and ends |
| Scheduler.RunQueue.SwitchTo | src/kernel/sched/scheduler.cpp:441-451 | The picked task runs and its space is loaded |
| Scheduler.RunQueue.Exit | src/kernel/sched/scheduler.cpp:509-527 | Exit marks the current task dead, which it still is afterwards, and the next task is chosen as the model does, with CR3 following |
| Scheduler.RunQueue.Add | src/kernel/sched/scheduler.cpp:604-618 | The record is linked behind the tail |
| Scheduler.RunQueue.Clone | src/kernel/sched/scheduler.cpp:529-602 | A successful fork appends one ready task with its own space; a failed one leaves tasks and spaces as they were |
| Scheduler.RunQueue.Spawn | src/kernel/sched/scheduler.cpp:82-157 | A spawned task is appended, and CR3 ends at the caller's space, or at the new one when the kernel task calls; a failure after the space was made leaves tasks and CR3 alone and the space behind |
| Scheduler.RunQueue.ExecCurrent | src/kernel/sched/scheduler.cpp:297-351 | The new space is loaded before the old one is torn down; a failed exec changes nothing |
| Scheduler.RunQueue.Find | src/kernel/sched/scheduler.cpp:465-472 | The listed task of that name, or none |
| Scheduler.RunQueue.Wait | src/user/syscall.cpp:609-624 | Wait is done exactly when the task is gone or dead, and collects a dead one unless it is the caller |
| Fat.WriteIsUpdate | src/fs/fat32.cpp:197-223 | Writing an entry in all copies updates one 28-bit entry of the map, keeps the reserved bits of every word of every copy and keeps the copies equal |
| Fat.PutFromEntry | src/fs/fat32.cpp:199-212 | Word by word what the loop over the copies writes |
| Fat.AtApart | src/fs/fat32.cpp:198-203 | Different entries lie at different places of the region |
| Fat.EntryPlace | src/fs/fat32.cpp:184-223 | Counted in words, the entry of a cluster is the one of its number in each copy |
| Fat32.FirstCopyFresh | src/fs/fat32.cpp:82-109 | The first copy on disk is never stale, even while the cached sector is dirty |
| Fat32.Volume.constructor | src/fs/fat32.cpp:583-621 | A mounted volume with a well-formed table, nothing cached |
| Fat32.Volume.CachedSector | src/fs/fat32.cpp:82-109 | Fetching a sector, with write-back of another dirty one, leaves the disk under the cache overlay unchanged |
| Fat32.Volume.ReadFat | src/fs/fat32.cpp:184-195 | The entry of the plain map, which is unchanged |
| Fat32.Volume.WriteFat | src/fs/fat32.cpp:197-223 | Through the one-sector cache the plain map is updated at one cluster, and agreeing copies agree once the cached sector is laid over the disk |
| Fat32.Volume.AllocCluster | src/fs/fat32.cpp:225-238 | The lowest free cluster the scan reaches becomes a zeroed chain of its own; 0 exactly when none is free there, which never includes the last two clusters of the volume |
| FatChain.ChainAcyclic | src/fs/fat32.cpp:269-299 | A chain never returns to a cluster |
| FatChain.ChainUnique | src/fs/fat32.cpp:411-461 | The table and the first cluster determine the chain |
| FatChain.AllocKeeps | src/fs/fat32.cpp:225-238 | Allocation keeps the table a set of disjoint finite chains |
| FatChain.LinkKeeps | src/fs/fat32.cpp:451-460 | Linking a new cluster behind a chain's last one extends that chain and no other |
| Fat32.Volume.Extend | src/fs/fat32.cpp:454-458 | The writer's chain grows by one formerly free cluster; all other chains stay |
| Fat32.Volume.Write | src/fs/fat32.cpp:404-465 | The bytes land at the start of the current cluster plus the offset within a cluster; only the writer's chain grows, by clusters that were free; the result is exactly the lesser of the request and the room in the file's chain and the free clusters the scan sees, and -1 exactly for a directory or when the first cluster cannot be had |
| Fat32.OthersKept | src/fs/fat32.cpp:411-465 | A write leaves the chain and the content of every other file as they were |
| Fat32.Volume.Read | src/fs/fat32.cpp:366-402 | The bytes of the chain's content at the position are returned: never more than asked for or past the end of the file, none at or past it, and fewer only at the end of the chain; the position moves by as many |
| Fat32.Volume.ReadTwice | src/fs/fat32.cpp:366-402 | Two reads in a row give the bytes of one read, unless the first came to the end of the chain |
| Fat32.Volume.WriteAndReadBack | src/fs/fat32.cpp:366-465 | What one call writes through a fresh handle, all that there is room for, another fresh handle reads back |
| Fat32.Volume.WriteTwice | src/fs/fat32.cpp:411-465 | The bytes of two writes in a row end up where one write would put them if and only if the first does not end on a cluster boundary; otherwise the second lands one cluster too early; both complete whenever there is room for both, also in a new file |
| Fat32.Volume.SplitWriteLoses | src/fs/fat32.cpp:451-461 | A family of failures: after a write of one whole cluster through a fresh handle the next write replaces the first bytes, and both report success, for every mountable cluster size and also for a new file, unless no first cluster can be had |
| Fat32.Volume.FindEntry | src/fs/fat32.cpp:269-299 | The walk along a directory chain ends and finds the first live record with the file's short name before the end mark, or none |
| Fat32.Volume.FilenameToShort | src/fs/fat32.cpp:240-267 | The search for the dot and the two copy loops give the short name: eight bytes of the base and three of what follows the first dot, in upper case, filled up with blanks |
| Fat32.ShortNameFoldsCase | src/fs/fat32.cpp:240-267 | File names that differ only in case have one short name |
| Fat32.ShortNameBytes | src/fs/fat32.cpp:240-267 | The short name byte by byte: eight bytes of the base up to the first dot, three behind it, in upper case, with blanks for what is missing |
| Fat32.UpperIs | src/fs/fat32.cpp:240-267 | Upper case clears the case bit of the ASCII letters and leaves every other byte alone |
| Fat32.RecordFields | src/fs/fat32.cpp:279-293 | In a directory laid out as records of the FAT specification, a zero name byte ends the search, deleted records and long-name parts are passed over, and the name is compared whole |
| Pipes.RunInv | src/user/syscall.cpp:81-494 | Over every run of pipe, open, dup, dup2 onto a descriptor that is no pipe end, fork, close, close-all, read, write and leaving without pipe ends, each pipe's counts equal its open ends across all processes, a slot in use is held by someone, and what was read is a prefix of what was accepted |
| Pipes.StepKeeps | src/user/syscall.cpp:81-494 | Each call keeps that invariant |
| Pipes.HoldKeeps | src/user/syscall.cpp:687-694 | Storing and counting an end over a descriptor that holds none keeps the counts exact |
| Pipes.DropKeeps | src/user/syscall.cpp:400-416 | Closing keeps the counts exact and gives the slot back with its last end |
| Pipes.UnusedHasNoEnds | src/user/syscall.cpp:92-98 | A slot that is reused has no open end anywhere |
| Pipes.EofMeansNoWriter | src/user/syscall.cpp:256-261 | End-of-file exactly when nothing is pending and no process holds a write end; waiting exactly when one does |
| Pipes.EofIsFinal | src/user/syscall.cpp:256-261 | Once no writer is left, none comes back and no byte is accepted while the pipe is in use |
| Pipes.Dup2Copies | src/user/syscall.cpp:673-697 | dup2 of an open descriptor makes the new one a copy whatever it held, counts the end once more and changes nothing else |
| Pipes.DupCopies | src/user/syscall.cpp:1183-1206 | dup does the same with the lowest free descriptor, and nothing when there is none |
| Pipes.OpenUses | src/user/syscall.cpp:321-387 | Opening a file takes the lowest free descriptor from 3 on and changes nothing else |
| Pipes.CloseFrees | src/user/syscall.cpp:389-418 | The closed descriptor is free and no other changes; a pipe is given back exactly when nobody holds an end of it any more |
| Pipes.CloseAllFrees | src/user/syscall.cpp:471-494 | Afterwards the process has no descriptor and every other process has its own |
| Pipes.ReadGives | src/user/syscall.cpp:233-319 | A pipe gives what it answers: the oldest pending bytes, as many as asked for or pending, and only that pipe changes |
| Pipes.WriteTakes | src/user/syscall.cpp:150-231 | A pipe takes what it answers: a prefix of the buffer, all of it or until the pipe is full, and only that pipe changes |
| Pipes.OtherAnswers | src/user/syscall.cpp:150-319 | A read or write that is refused or goes elsewhere changes no pipe, and which it is depends only on the descriptor |
| Pipes.StepStreams | src/user/syscall.cpp:170-275 | The bytes accepted and delivered only grow while the pipe is in use |
| Pipes.Dup2Exact | src/user/syscall.cpp:673-699 | dup2 keeps the counts exact if and only if the overwritten descriptor is no pipe end |
| Pipes.DupFdExact | src/user/syscall.cpp:430-442 | F_DUPFD keeps the counts exact if and only if the copied descriptor is no pipe end |
| Pipes.FailedForkExact | src/kernel/sched/scheduler.cpp:552-566 | A fork that fails after the descriptor copy keeps the counts exact if and only if the parent holds no pipe end |
| Pipes.LeaveExact | src/user/syscall.cpp:655-659 | A process that goes without closing its descriptors, as on killing itself or on a fault, keeps the counts exact if and only if it holds no pipe end |
| Pipes.CountsBroken | src/user/syscall.cpp:81-148 | Two calls from boot lead to a state in which dup2, F_DUPFD, a failed fork and a kill each break the counts |
| Syscalls.Buffer.Put | src/user/syscall.cpp:170-186 | The buffer accepts a prefix that fits behind the write position and appends it to what was accepted |
| Syscalls.Buffer.Take | src/user/syscall.cpp:263-274 | The oldest pending bytes are delivered; a drained buffer starts over |
| Syscalls.Kernel.SysPipe | src/user/syscall.cpp:81-148 | A new pipe in the first free slot with its ends in the two lowest free descriptors; without them nothing but the cleared free slot changes |
| Syscalls.Kernel.SysWrite | src/user/syscall.cpp:150-186 | A write refines the abstract step and its answer: the accepted prefix of a pipe, a refusal, or whatever the terminal or file answers |
| Syscalls.Kernel.SysRead | src/user/syscall.cpp:233-275 | A read refines the abstract step and its answer: bytes, end-of-file, wait, refusal, or whatever the terminal or file answers |
| Syscalls.Kernel.SysDup | src/user/syscall.cpp:1183-1207 | The lowest free descriptor gets a counted copy |
| Syscalls.Kernel.SysDup2 | src/user/syscall.cpp:673-699 | The table has the copied descriptor in the new place and is otherwise as before; the number returned, the counts, and the exact condition under which they stay right |
| Syscalls.Kernel.SysClose | src/user/syscall.cpp:389-418 | One descriptor is closed, and a pipe without ends is given back |
| Syscalls.Kernel.SysCloseAll | src/user/syscall.cpp:471-494 | The loop refines closing every descriptor, though it tests for counts at most zero instead of zero |
| Syscalls.Kernel.CopyDescriptors | src/kernel/sched/scheduler.cpp:552-560 | Copying the table whole and then counting the pipe ends equals holding each descriptor in turn |
| Elf.SegmentReadsBack | src/exec/elf.cpp:67-111 | Read back through the new tables, a loaded segment is its file bytes followed by zeros up to its memory size, for every alignment, on every page no later segment takes |
| Elf.Load | src/exec/elf.cpp:12-122 | Either every page of every loadable segment holds the image of the last segment that covers it and the entry point is returned, or memory ran out; it does not with four free frames for every page; other spaces keep their translations; a file that is not ELF changes nothing |
| Elf.LoadSegment | src/exec/elf.cpp:67-111 | The page loop of one segment extends the loaded pages to the segment, surely so with four free frames for every page of it |
| Elf.LoadPage | src/exec/elf.cpp:78-110 | One page is allocated, mapped and filled, surely so with four free frames; earlier pages keep their bytes |
| Elf.FillPage | src/exec/elf.cpp:93-109 | The slice arithmetic copies exactly the file bytes that belong on the page |
| Elf.PageLoaded | src/exec/elf.cpp:78-110 | Loading a page disturbs no page loaded before |
| Elf.CreatedReady | src/exec/elf.cpp:67-111 | A new address space can take every program whose pages avoid the kernel's PDPT slots |
| Elf.HeaderFields | src/exec/elf.cpp:34-44 | The loader reads from a file header laid out as in the gABI the entry point, table offset and count that were written there, and accepts exactly the magic number |
| Elf.SegmentFields | src/exec/elf.cpp:44-78 | The loader reads from a program header what was written there, and loads only type 1 |
| Vtree.FindInvertsPath | src/fs/vfs.cpp:299-503 | On every well-shaped tree, resolving the path of a node gives the node |
| Vtree.ResolveSplit | src/fs/vfs.cpp:332-412 | Resolution works component by component |
| Vtree.EnterMeans | src/fs/vfs.cpp:320-345 | Nothing and `.` stay, `..` is the parent and stays at the root, any other name is the child of that name |
| Vtree.PathUp | src/fs/vfs.cpp:299-360 | The printed path of a node followed by `/..` resolves to its parent, at the root to the root |
| Vtree.AddExact | src/fs/vfs.cpp:39-59 | A new node keeps the invariant if and only if its name is good and new among its siblings |
| Vtree.AddResolves | src/fs/vfs.cpp:39-59 | What resolved before a node was added resolves to the same node after |
| Vtree.RemoveExact | src/fs/vfs.cpp:615-633 | Removal keeps the shape, and with it good names, if and only if the node has no children |
| Vfs.FileTree.FindIn | src/fs/vfs.cpp:428-453 | The list walk and character loop find the child of that name |
| Vfs.FileTree.Find | src/fs/vfs.cpp:299-422 | The character loop with its cut component buffer equals resolution of the path |
| Vfs.TargetMeans | src/fs/vfs.cpp:299-360 | A printed path finds its node from every working directory, with `/..` behind it the parent; `..` alone is the parent of the working directory, and a name alone its child |
| Vfs.FileTree.GetPath | src/fs/vfs.cpp:464-503 | The upward loop builds the path of the node |
| Vfs.FileTree.CreateNode | src/fs/vfs.cpp:39-59 | The node becomes the first child of its parent |
| Vfs.FileTree.CreateDirPath | src/fs/vfs.cpp:178-221 | The tree only grows, by directories on the way to the result, and keeps its shape; the result's printed path is that of the start followed by every component, cut to 127 characters; names stay good if and only if no component of the path is a dot component, and then the path resolves to the returned directory |
| Vfs.FileTree.CreateFilePath | src/fs/vfs.cpp:119-176 | Refused, with nothing made, if and only if the path has no component or one before the last names a file; otherwise the tree grows by directories on the way and the file, whose printed path is that of the start followed by every component, cut to 127 characters; names stay good if and only if the path is refused or has no dot component, and then the path resolves to the file |
| Vfs.FileInTheWay | src/fs/vfs.cpp:163-170 | When a part of the path leads to a file and more follows, the path is refused |
| Vfs.DotIsMade | src/fs/vfs.cpp:178-221 | An instance: a directory is made for the component `.`, and the same path then leads to the root |
| Vfs.FileTree.Remove | src/fs/vfs.cpp:595-636 | Exactly the node at the path is unlinked and freed; refused exactly for a missing node, the root and a directory with children; the shape survives exactly when the node had no children |
| Vfs.RemovedFileOrphans | src/fs/vfs.cpp:178-221 | An instance, call by call: a file that got a child through directory creation is removed and leaves the child without a parent |
| Strings.Memcpy | src/lib/string.cpp:7-45 | The aligned word-wise copy equals copying all bytes at once when the destination is below the source or clear of it |
| Strings.Memmove | src/lib/string.cpp:99-113 | For every overlap the old source bytes are at the destination and nothing else changes |
| Strings.CopiedStep | src/lib/string.cpp:23-36 | After part of a forward copy the source of the rest is untouched |
| Strings.CopiedBack | src/lib/string.cpp:106-109 | After part of a backward copy the source of the rest is untouched |
| Strings.CopiedBytes | src/lib/string.cpp:7-45 | Byte by byte, the destination holds what the source held before and every other byte stays |
| Strings.Memcmp | src/lib/string.cpp:115-156 | The word-wise comparison equals the byte-by-byte one |
| Strings.CompareZero | src/lib/string.cpp:115-156 | The comparison is zero if and only if the ranges are equal |
| Strings.CompareFirst | src/lib/string.cpp:115-156 | Otherwise it is the difference of the first differing bytes |
| Words.HasZeroIff | src/lib/string.cpp:158-160 | The bit trick is exact: zero if and only if no byte of the word is zero |
| Strings.Strlen | src/lib/string.cpp:162-180 | The word-wise scan returns the distance to the first zero byte and reads only aligned words |

## Left out

- Device drivers, port I/O, interrupts, boot parsing, console and framebuffer drawing; the framebuffer is an abstract, page-aligned frame range.
- TLB invalidation, and the order of freeing a frame and clearing its entry within one step of teardown.
- The AddressSpace and PageTable wrapper objects around a PML4, and setup_kernel_identity and enable_paging, which only repeat map_page.
- Gzip.Decompress: the checksum and length in the trailer are not compared, as in the code; a member without its eight trailer bytes, and code lengths that leave their arrays, end in a fault where C++ has undefined behaviour; the destination has the room the caller says.
- Pmm.Allocator.FreePage: addresses beyond the bitmap, which the code does not check, are excluded.
- Paging.Machine.MapPage: the kernel's own table is mapped only before the first process exists, and a process maps only below its own tables or an inherited framebuffer page once more; a mapping into a shared table would be seen by every process. A user page is not frame 0. The callers in the repository keep to this, except that create_user_stack maps frame 0 for user mode when alloc_page gives null (src/kernel/sched/scheduler.cpp:62-71); `Pmm.Allocator.NullIsFreed` shows where that leads.
- Paging.Machine.FindTable: walks into tables shared with the kernel only along open paths, for the same reason.
- Paging.Machine.UnmapPage: not below tables shared with the kernel; the code calls unmap_page on the kernel's table only.
- Fork.CloneUserPages: the child is a new address space without pages of its own, as create_address_space makes it; `Fork.ForkAndExit` shows that this is all a fork needs.
- Heap.KernelHeap.Kfree: a pointer inside the arena is that of a listed block, and the footer in front of it names a listed block; anything else dereferences memory that is no block.
- Heap.KernelHeap.Scribble: headers and footers are kept in two maps; `Heap.FooterMissesHeaders` and this method's contract show that they never overlap.
- Elf.Load: the headers and file ranges lie inside the file and segments inside user space, which the code does not check; the file lookup and the unused bounds computation are not modelled.
- Scheduler.RunQueue.ExecCurrent: the caller is not the kernel task, which runs no program.
- Scheduler.RunQueue.Spawn: stacks, registers and task memory are not modelled.
- Scheduler.RunQueue.Wait: the loop that yields between rounds is the caller's.
- Task addresses are names that are never used twice; parent pointers and kill_task_tree are not modelled, since a parent may already be gone.
- Fat32.Volume.Write: the update of the directory record, which lies in another file's cluster, and the cluster cache of block devices are not modelled; bytes are those of a memory image. The backend never fails and the sector buffer can be allocated.
- Fat32.OthersKept: without that directory record.
- Table words are 32-bit numbers; masks are written as division and remainder by 2^28.
- Pipes.StepKeeps: calls that break the counts are not steps of a run; the four exact conditions say which they are.
- Syscalls.Kernel.SysRead: what terminals, files and devices behind other descriptors answer is not modelled, and the wait for a writer is an answer.
- Syscalls.Kernel.SysWrite: what terminals, files and devices behind other descriptors answer is not modelled.
- Vfs.FileTree.Find: symbolic links and mounted file systems are not modelled; cyclic links have no termination measure in the code.
- Vfs.FileTree.GetPath: the path fits the buffer of 1024 bytes; the code does not check.
- Strings.Memcpy: a destination that starts inside the source range is excluded, as C requires; memmove never asks for it.
- memset, strcpy and the other byte loops of the string library, libc stubs, procfs and sysfs text, mounts and devices.
