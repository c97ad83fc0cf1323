# A verified model of a small x86-64 kernel and of its image builder

The repository is a teaching kernel with processes, copy-on-write fork, a small
file system, exec, a text console, and a host program that builds the file
system image. This project models the default (amd64) build in Dafny and proves
what its parts are for.

**Virtual memory.** A machine is an array of 4 KB frames (512 words), a
reference count and a link per frame, the head of the free list, a TLB and cr3.
Four-level tables (section 4.5 of volume 3A of the Intel SDM) live in frames of
the same allocator. `Vm` is the machine as a value together with what the
tables mean: `ent`, a map from nodes (address space, level, number) to the word
stored for them. Its invariant `Inv` says that every count is exact, that the
free list holds each count-0 frame once, that a table frame is named by one
entry, and that memory stores exactly what `ent` says. `PageTable`,
`AddressSpace`, `Fork`, `Teardown`, `UserPages` and `ExecSpace` say what the kernel's
routines do to that value, `Kept` what frames that are taken and never given back do to
it, and `Held` that nobody gets them ever after. `System` adds process slots, the current process and the
TLB; `Steps` has the steps of a run, exec and the creation of processes among them,
and the eager-copy machine; `ExecSteps` and `Refinement` prove that every run reads
what it would read if fork copied the whole window at once; `Conservation` that fork,
a child's life and its exit give everything back. `Mm`, `ProcVm`, `Trap`, `Proc` are
the routines themselves, on arrays and fields, each proved to do to the value what
the specification says; `Runs` serves any sequence of requests with them.

**File system.** `Disk` is the file system as a value: blocks, the set of free
block numbers, inodes. `Own` says that every pointer of every inode names a block
of its own, outside the reserved ones and not free, and that free blocks are
zero; `View` is the content of a block of a file. `Bitmap`, `Layout`, `Directory`
and `Mkxxx` are the image builder, `Transfer`, `Writing` and `KernelFs` the
kernel's reader and writer, `RoundTrip` joins the two programs. Every block that the
kernel reads stays in a frame of its own for good; `FsReads` says which blocks those
are, and every routine that reads says what it leaves of the free list; `Demand` says how
many free blocks a write takes, and where it stops without them.

**exec.** `Elf` says what an executable describes, in the terms of the "Program
Header" section of chapter 5 of the System V gABI, and which of its zeros it gets;
`ElfFormat` is the layout of those headers, as an encoder;
`Exec` is `sys_execve` on both cores, `Spawn` is `create_proc`, which takes a program
from memory; `Filling` is what they share, and `FillLater` says why mapping first and
copying afterwards comes to the same.

**Small machines.** `Scheduler`, `OpenFiles` and `Console`. `Limits` holds table sizes.

Words are natural numbers and a word's flags are its low twelve bits. A page
number is an address divided by 4096; the user window is the pages 0x80000 to
0x8FFFE, the last of which is the stack. Each trap is one atomic step, and only
user-mode accesses are memory steps of a run.

What the code does short of its intent is modelled as it is, and the exact
condition under which it does what it should is proved:

- `schedule` wraps its index only after the first probe. Bounded waiting holds
  if and only if slots 0 and 9 are not both runnable; every other slot never waits for
  more than ten dispatches.
- `file_read` and `file_write` move at most the requested count in each round, not
  what is left of it. They move exactly the count if and only if the request stays
  in one block or ends on a block boundary, otherwise more.
- The kernel stores new pointers of the indirect block into a private copy. A
  byte written is read back if and only if its block is direct or was allocated
  before; else it reads as zero.
- `walk_path` and `alloc_file` never reset their entry counter. A created file can
  be looked up if and only if, before the call, the directory was empty or its first
  block had a vacant entry.
- Past block 2057 `walk_block` keeps its last pointer. All files of n bytes are stored
  as they are if and only if n is at most 2058 blocks.
- `fd = allocfd() < 0` makes every open use descriptor 0. Over a run all reference
  counts stay equal to the numbers of live descriptors if and only if no successful
  open is made by a process whose descriptor 0 is in use.
- exec neither reads nor zeroes the rest of the page in which `p_filesz` falls. A page
  is zero from `p_filesz` on, whatever its frame held, if and only if `p_filesz` does
  not lie in it; a program is sure to get the zeros between `p_filesz` and `p_memsz`
  that it asks for if and only if it asks for none.
- `file_write` does not look at what `walk_block` returns. It goes on through a stale
  pointer if and only if it gets past the direct blocks of a file without an indirect
  block, and the free blocks are exactly as many as the holes that it fills before. A
  byte written at offset 40960 of an empty file on a full disk is such a write.
- `insert_page` on a mapped page loses the frame that was mapped: its count stays one
  too high, so it is never free again.
- `load_img` copies `p_memsz` bytes and does not look at `p_filesz`: past `p_filesz` a
  new process finds whatever follows in the image.
- fork without a frame for the PML4 loses the process slot that it took.

## Model

| member | source | states |
|---|---|---|
| Words.ShiftsAreDigits | kernel/mm.c:186-188 | the shifts and masks of the walk are the base-512 digits of the page number |
| Vm.AllocInv | kernel/mm.c:112-126 | taking the head of the free list keeps all counts exact; the frame was named by no entry |
| Vm.FreeInv | kernel/mm.c:128-140 | giving up a reference keeps all counts exact and puts a frame on the free list exactly when it was the last |
| Vm.BumpInv | kernel/proc.c:476-476 | `pp->count++` keeps the invariant as one more reference held |
| Vm.LinkInv | kernel/mm.c:283-283 | storing a word for an absent node turns one held reference into an entry and keeps every table right |
| Vm.UnlinkInv | kernel/mm.c:307-307 | clearing the word of a childless node keeps the invariant |
| Vm.ReflagInv | kernel/proc.c:478-478 | rewriting a page's flags keeps the invariant |
| Vm.RootInv | kernel/proc.c:65-80 | a zeroed frame with the kernel's upper half becomes an address space of its own |
| Vm.UnrootInv | kernel/proc.c:363-364 | an address space without entries can be given up |
| PageTable.WalkIsLookup | kernel/mm.c:223-267 | the radix tree refines a partial map: the walk through memory finds exactly the word of the page, 0 if there is none |
| PageTable.WalkCreateF | kernel/mm.c:223-267 | walking with create makes exactly the missing tables and takes exactly that many frames |
| PageTable.WalkCreateTranslatesNothing | kernel/mm.c:223-267 | walking with create changes no translation of any page of any address space |
| PageTable.InsertF | kernel/mm.c:269-287 | on an empty leaf: the page's word is set, the frame is named once more, the cached translation is dropped, data frames keep their content |
| PageTable.OverwriteF | kernel/mm.c:269-287 | on a leaf in use: the word is replaced, all counts and the free list stay, so the kernel is left with a reference to the frame named before |
| PageTable.OverwriteLoses | kernel/mm.c:269-287 | that frame's count stays one above its entries, and while it does the frame is not free |
| PageTable.OverwriteChangesOneKey | kernel/mm.c:269-287 | overwriting changes one translation, in one address space |
| PageTable.InsertChangesOneKey | kernel/mm.c:269-287 | inserting on an empty leaf changes one translation, in one address space; it takes at most three frames, and none where the region has a table |
| PageTable.RemoveF | kernel/mm.c:289-310 | one entry disappears, its frame loses one reference, everything else stays |
| PageTable.RemoveDeletesOneKey | kernel/mm.c:289-310 | remove deletes one translation, in one address space |
| AddressSpace.ZeroKeepsPages | kernel/amd64/trap.c:197-200 | a demand-zero fault changes what no page of any address space reads |
| AddressSpace.CowKeepsPages | kernel/amd64/trap.c:201-208 | a copy-on-write fault changes what no page of any address space reads |
| AddressSpace.ForkTablesCount | kernel/proc.c:464-488 | the tables that fork needs are two and one for each 2 MB region with a mapped page |
| Fork.ForkCost | kernel/proc.c:458-488 | fork takes exactly 4 + k frames, k the number of regions mapped; all counts are exact afterwards and no stale translation stays |
| Fork.ForkOther | kernel/proc.c:464-482 | outside the child only flags of the parent's window pages change |
| Fork.ForkChild | kernel/proc.c:464-488 | the child maps exactly the parent's window pages, shared and read-only, the stack its own and writable |
| Fork.ForkStackPrivate | kernel/proc.c:485-488 | no other entry names the child's stack frame |
| Fork.ForkKeepsPages | kernel/proc.c:464-488 | fork changes what no existing page reads |
| Fork.ForkCopiesPages | kernel/proc.c:464-488 | in the window the child reads exactly what the parent reads |
| Teardown.RemoveAllF | kernel/proc.c:353-355 | the loop of remove_page clears exactly the window's pages, in memory and in the TLB |
| Teardown.TablesFreed | kernel/proc.c:550-608 | free_pgtable gives back every PT, PD and PDPT of the window once and clears the words that named them |
| Teardown.Destroyed | kernel/proc.c:346-366 | after destroy_vm nothing of the address space is left and no other is touched |
| UserPages.WritableMeansPrivate | kernel/proc.c:472-488 | a frame that a user page maps writable has count 1 and is named by no other entry |
| UserPages.ZeroOk | kernel/amd64/trap.c:197-200 | a demand-zero fault keeps writable-means-private |
| UserPages.CowOk | kernel/amd64/trap.c:201-208 | a copy-on-write fault keeps writable-means-private |
| UserPages.ForkOk | kernel/proc.c:464-488 | fork keeps writable-means-private |
| UserPages.DestroyOk | kernel/proc.c:346-366 | teardown keeps writable-means-private |
| Kept.KeepF | kernel/fs.c:60-66 | a frame that is taken, filled and kept: the free list loses its head, the kernel holds one reference more, entries, data, tables and TLB stay |
| Kept.KeepMore | kernel/fs.c:60-66 | frames kept one after the other come to the same however they are split |
| Kept.TakesOk | kernel/fs.c:60-66 | keeping frames keeps writable-means-private |
| Kept.TakesPages | kernel/fs.c:60-66 | keeping frames changes what no page of any address space reads |
| System.FaultOk | kernel/amd64/trap.c:185-212 | after the fault the access is allowed, the TLB agrees with the tables, and every page of every process reads as before |
| System.TouchOk | kernel/amd64/trap.c:185-212 | the access that follows goes through a cached entry that is the table's own and permits it |
| Refinement.LoadRefines | kernel/amd64/trap.c:185-208 | a load reads the word that the eager-copy machine reads |
| Refinement.StoreRefines | kernel/amd64/trap.c:185-208 | a store changes that word of that process alone, as on the eager-copy machine |
| Refinement.ForkRefines | kernel/proc.c:431-501 | fork is the copy of the whole window into the first free slot |
| Refinement.ExitRefines | kernel/proc.c:346-394 | exit removes that process and returns its slot; nobody else notices |
| Refinement.SwitchRefines | kernel/proc.c:201-233 | a switch reloads cr3, leaves no stale translation, and changes what nobody reads |
| Refinement.StepRefines | kernel/amd64/trap.c:157-222 | every step keeps the system in order and is a step of the eager-copy machine with the same observation |
| Refinement.CopyOnWriteRefinesEagerCopy | kernel/proc.c:431-501 | over every run, execs and new processes included, each process reads exactly what it would read if fork copied the whole window at once and unmapped pages were zero |
| Held.StepStays | kernel/amd64/trap.c:157-222 | a step leaves the kernel as many references to a frame that it holds as before |
| Held.HeldForever | kernel/mm.c:62-93 | over every run: a frame that the kernel holds, reserved at boot or filled by bread, is not free afterwards either, and no entry of any address space names it |
| Conservation.CountsDetermined | kernel/mm.c:112-140 | counts and the free set follow from which frames the entries name |
| Conservation.ForkExitConserves | kernel/proc.c:346-394 | fork, any accesses by the child alone and its exit restore every count, the free set, the slots and every entry of every address space, but for the flags of the parent's window pages below the stack, which stay shared |
| Conservation.ForkExitKeepsPages | kernel/proc.c:431-501 | through all of that every other process reads what it read |
| Mm.BootExact | kernel/mm.c:56-110 | the list that init_page threads holds exactly the usable frames, each once |
| Mm.Machine.constructor | kernel/mm.c:410-461 | from any memory the machine starts with exact counts, frames 0, 8 and 160 up to the end of the kernel reserved, and 9 to 159, 1 to 7 and the rest free in that order |
| Mm.Machine.InitPage | kernel/mm.c:56-110 | reserves every frame and frees [1,8), [9,160) and everything past the kernel |
| Mm.Machine.Thread | kernel/mm.c:69-93 | one threading loop prepends its range, in rising order, to the list |
| Mm.Machine.AllocPage | kernel/mm.c:112-126 | NULL exactly when the list is empty; otherwise its head, which leaves the list, counted, and zeroed on request |
| Mm.Machine.FreePage | kernel/mm.c:128-140 | the count goes down by one, and a frame whose count was 1 becomes the head of the list |
| Mm.Machine.WalkDir | kernel/mm.c:179-221 | the lower two levels: the leaf's place, the PT made if asked for |
| Mm.Machine.WalkPage | kernel/mm.c:223-267 | fails exactly when the page has no PT; with create it does what WalkCreateF says |
| Mm.Machine.TlbInvalid | kernel/mm.c:45-53 | invlpg drops one translation |
| Mm.Machine.InsertPage | kernel/mm.c:269-287 | refuses NULL and changes nothing; otherwise does what InsertF says, or OverwriteF if the leaf is in use |
| Mm.Machine.RemovePage | kernel/mm.c:289-310 | fails exactly without a PT; otherwise does what RemoveF says |
| ProcVm.AllocVm | kernel/proc.c:64-80 | NULL exactly without a free frame; otherwise an empty address space with the kernel half |
| ProcVm.ShareRound | kernel/proc.c:465-479 | one round of fork's loop: alias, count, downgrade, invalidate, or nothing |
| ProcVm.ShareAll | kernel/proc.c:464-482 | the whole loop does what ShareAllF says |
| ProcVm.CopyPage | kernel/amd64/trap.c:203-204 | a fresh frame with the content the MMU finds at the address |
| ProcVm.ForkVm | kernel/proc.c:458-488 | fails exactly without a frame for the PML4; otherwise the copied address space |
| ProcVm.RemoveAll | kernel/proc.c:353-355 | the teardown loop does what RemoveAllF says |
| ProcVm.FreePts | kernel/proc.c:561-573 | the loop over the PD frees the PT of each of the window's 128 regions and is left because the address reaches USTACKTOP, never at the end of the PD |
| ProcVm.FreePds | kernel/proc.c:558-585 | the loop over the PDPT frees the PD if there is one and is left in the same way |
| ProcVm.FreePgtable | kernel/proc.c:550-608 | the loop over the PML4 ends by its address too, and all together do what FreePgtableF says |
| ProcVm.DestroyVm | kernel/proc.c:346-366 | pages, tables and the PML4 are given back |
| Trap.PageFault | kernel/amd64/trap.c:185-212 | panics exactly on a kernel fault, and goes on; demand-zero, copy-on-write or nothing by the error code |
| Trap.Touch | kernel/amd64/trap.c:185-212 | translate, fault if need be, translate again |
| Trap.LoadWord | kernel/amd64/trap.c:185-212 | the loaded word is that of the frame the TLB names after the fault |
| Trap.StoreWord | kernel/amd64/trap.c:185-212 | the stored word goes to the frame the TLB names after the fault, and nowhere else |
| Scheduler.ScanNearest | kernel/proc.c:409-422 | the scan finds the nearest runnable slot in cyclic order, or none exists |
| Scheduler.NextNearest | kernel/proc.c:396-429 | from slot cur the nearest runnable slot in cyclic order is dispatched, cur itself being the farthest; from slot 9 the search starts two slots on; nobody exactly if none of those is runnable |
| Scheduler.NextComplete | kernel/proc.c:396-429 | from every slot but the last, nobody is found exactly if nobody is runnable |
| Scheduler.NextFromLast | kernel/proc.c:407-417 | from the last slot, slot 0 is never dispatched |
| Scheduler.ZeroStarves | kernel/proc.c:407-417 | with slots 0 and 9 runnable slot 0 waits forever once 9 runs |
| Scheduler.OthersRun | kernel/proc.c:396-429 | whatever is runnable and from any slot, every runnable slot but 0 runs within as many dispatches as it lies slots away, ten at most |
| Scheduler.BoundedWaiting | kernel/proc.c:396-429 | every runnable slot runs within ten dispatches if and only if slots 0 and 9 are not both runnable |
| Proc.Kernel.constructor | kernel/proc.c:23-36 | before the first process the system is in order, all ten slots free |
| Proc.Kernel.InitProc | kernel/proc.c:23-36 | the slot list is 0 to 9 in order |
| Proc.Kernel.AllocProc | kernel/proc.c:39-53 | the head of the slot list, stopped; the list moves on |
| Proc.Kernel.FreeProc | kernel/proc.c:56-61 | the slot becomes the head of the list |
| Proc.Kernel.UserLoad | kernel/amd64/trap.c:185-212 | a user load on the machine is the specified step and reads the specified word |
| Proc.Kernel.UserStore | kernel/amd64/trap.c:185-212 | a user store on the machine is the specified step |
| Proc.Kernel.SysFork | kernel/proc.c:431-501 | returns the first free slot after the specified fork and makes it RUNNABLE; without a frame it returns -1 and has lost the slot, which is STOP; every other slot keeps its status |
| Proc.Kernel.DestroyCurrent | kernel/proc.c:367-394 | exit is the specified step: memory back, slot at the head, nobody running; the slot is STOP, for which waitpid waits, and has no pgdir, and every other keeps its status |
| Proc.Kernel.RunProc | kernel/proc.c:201-209 | cr3 and current are the new process's and the TLB is empty |
| Proc.Kernel.FindRunnable | kernel/proc.c:407-423 | the probing loop ends and finds what NextNearest says |
| Proc.Kernel.Schedule | kernel/proc.c:396-429 | the process found runs; if none is, nobody runs |
| Proc.Kernel.Serve | kernel/amd64/trap.c:157-222 | each access, trap and system call but exec is the specified step with the specified observation, and sets the status that it should of the slot that it takes or gives back, and of no other |
| Runs.Serve | kernel/amd64/trap.c:157-222 | each request, execve and create_proc included, turns into a step of the kind that it asks for |
| Runs.StatusMore | kernel/proc.c:383-387 | over every run a slot is RUNNABLE while a process has it, STOP from that process's exit until it is handed out again, and untouched before |
| Runs.ServeAll | kernel/amd64/trap.c:157-222 | any sequence of requests on the machine and the disk is a run of the eager-copy machine with the same observations; every slot has the status that StatusMore says, and HeldForever holds |
| Bitmap.TakenIs | scripts/mkxxx.c:38-50 | set_bitmap clears the bit of its number and no other |
| Bitmap.GetFreeNo | scripts/mkxxx.c:28-36 | the lowest free number, -1 exactly if there is none |
| Bitmap.SetBitmap | kernel/fs.c:42-46 | the number is taken out of the free set |
| Bitmap.AllFree | scripts/mkxxx.c:338-346 | a bitmap of ones: every number is free |
| Disk.AssignOwn | scripts/mkxxx.c:66-72 | storing a free number in an empty slot and clearing its bit keeps one owner for each block |
| Disk.AssignPtr | scripts/mkxxx.c:66-82 | that slot now names the block and every other slot what it named; a new indirect block is empty |
| Disk.AssignView | scripts/mkxxx.c:66-82 | allocation changes the content of no file |
| Disk.DataOwn | scripts/mkxxx.c:221-221 | writing data leaves every pointer and every owner as it was |
| Disk.DataView | scripts/mkxxx.c:221-221 | writing a block of a file changes that block of that file alone |
| Disk.GrabKeeps | kernel/fs.c:48-58 | the block handed out lies past the reserved ones, has one owner, and nothing reads otherwise |
| Disk.NextUnused | scripts/mkxxx.c:354-356 | the block handed out next lies past the reserved ones and no pointer of any inode names it, so 0 is a sound null |
| Disk.WalkKeeps | scripts/mkxxx.c:52-86 | walk_block with alloc keeps one owner for each block and the content of every file |
| Layout.LaidFaithfully | scripts/mkxxx.c:191-228 | a file of at most 2058 blocks is stored byte for byte, with zeros after its end |
| Layout.LaidOver | scripts/mkxxx.c:62-84 | of a longer file, block 2057 begins with the chunk stored last, byte for byte |
| Layout.FaithfulIff | scripts/mkxxx.c:62-84 | all files of n bytes are stored as they are if and only if n is at most 2058 blocks |
| Layout.PlaceKeeps | scripts/mkxxx.c:195-226 | one round changes one block of one file, its size, and at most two pointers |
| Layout.FilledRoom | scripts/mkxxx.c:201-218 | a round succeeds exactly if as many blocks are free as it takes |
| Layout.FilledStep | scripts/mkxxx.c:191-228 | a round stores the next chunk and keeps all that was stored |
| Layout.NewDirKeeps | scripts/mkxxx.c:151-169 | a directory block more changes what no file reads and keeps the directory in order |
| Layout.CreatedIs | scripts/mkxxx.c:233-276 | creating a file changes one directory entry and the content of one inode, nothing else |
| Layout.CreatedFinds | scripts/mkxxx.c:88-117 | the new name can be looked up if and only if the directory was empty or its first block had a vacant entry |
| Mkxxx.Image.constructor | scripts/mkxxx.c:321-383 | formatting a zeroed image: blocks 0..13 taken, root directory empty, everything in order |
| Mkxxx.Image.WalkBlock | scripts/mkxxx.c:52-86 | the slot of the block, the indirect block added if asked for; past block 2057 the pointer is left as it was |
| Mkxxx.Image.StoreBlock | scripts/mkxxx.c:195-226 | fails exactly without room; otherwise one round |
| Mkxxx.Image.StoreChunk | scripts/mkxxx.c:192-226 | the inner loop runs once for each chunk read |
| Mkxxx.Image.WriteFile | scripts/mkxxx.c:173-231 | succeeds exactly if enough blocks are free and then stores the file in exactly those; else stores the longest prefix of chunks that fits and leaves no block free |
| Mkxxx.Image.WalkPath | scripts/mkxxx.c:88-117 | 0 exactly if the name is in the first directory block |
| Mkxxx.Image.AllocFile | scripts/mkxxx.c:120-170 | the first vacant entry of the first directory block, else the first entry of a new block |
| Mkxxx.Image.CreateFile | scripts/mkxxx.c:233-276 | when it succeeds, where the entry is, what inode it takes, how much of the file is stored, whether the name can be looked up, and that other inodes stay; what a failure leaves: no inode taken and no content changed; one owner for each block throughout |
| Directory.EntryFound | scripts/mkxxx.c:269-270 | a new name is found exactly where it was entered, with its inode |
| Directory.EntryKept | scripts/mkxxx.c:269-270 | the other entries are as before |
| Directory.StrCmp | lib/lib.c:21-38 | 0 exactly if the field spells the name |
| Directory.FindName | kernel/fs.c:169-180 | the first entry of that name; a counter that is used up scans nothing |
| Directory.FindVacant | scripts/mkxxx.c:140-147 | the first vacant entry; a counter that is used up scans nothing |
| Transfer.TransferLaw | kernel/file.c:59-81 | count <= n < count + 4096, and n == count if and only if the request stays in one block or ends on a boundary |
| Transfer.MovedPastFirst | kernel/file.c:59-81 | where an inexact transfer ends |
| Writing.PutDurable | kernel/file.c:92-125 | a round at a direct or allocated block changes those bytes of that file alone |
| Writing.PutLost | kernel/fs.c:138-142 | a round at an unallocated block behind the indirect block changes no file and leaves the pointer null |
| Writing.WroteMore | kernel/file.c:92-125 | round by round the bytes written are exactly those of durable blocks in range |
| Writing.ReadBack | kernel/file.c:84-127 | a written byte is read back if its block is durable, else zero is |
| KernelFs.Volume.constructor | kernel/fs.c:87-110 | mounting keeps one owner for each block and every loaded file's content |
| Bytes.BlockFrameAt | kernel/fs.c:60-66 | a frame that a block was read into holds its bytes |
| KernelFs.Volume.Bread | kernel/fs.c:60-66 | the block, in the frame at the head of the free list, which is kept |
| KernelFs.Volume.WalkBlock | kernel/fs.c:111-145 | the inode's field, or a word of a private copy of the indirect block, which takes a frame; NULL without one |
| KernelFs.Volume.GetBlk | kernel/fs.c:48-58 | the lowest free block, -1 exactly if none is free |
| KernelFs.Volume.WalkPath | kernel/fs.c:147-184 | finds the inode exactly if the name is in the first directory block; one frame is kept then, else one for each directory block and each way to it |
| KernelFs.Volume.FileRead | kernel/file.c:52-82 | -1 exactly if a block touched is not allocated, and then the bytes before the first such block are read; else the file's bytes in order, n by the transfer law; no other byte of the buffer changes; each block read stays in a frame |
| KernelFs.ReadsAll | kernel/file.c:59-81 | where all blocks are allocated, reading takes one frame for each round, and one more for the indirect block from block 10 on |
| KernelFs.Volume.WriteBlock | kernel/file.c:93-114 | fails exactly without room; otherwise one round; the frames it takes either way |
| Demand.WantedMore | kernel/file.c:91-107 | a round wants one block if its pointer is null, and one more if it is the first behind a missing indirect block |
| Demand.SpentMore | kernel/file.c:91-107 | round by round the free blocks go down by exactly what is wanted, and no pointer ahead changes |
| Demand.WantsNothing | kernel/file.c:102-107 | a write wants no block if and only if every block that it touches is allocated |
| KernelFs.Volume.FileWrite | kernel/file.c:84-127 | unless the blocks run out right at the indirect block: it fails if and only if the blocks touched lack more blocks than are free, and then stops at the first that it cannot have; what it takes is what they lack; the durable bytes in range become the new ones, every other byte of every file and every other inode stay; the frames taken are those of the rounds made |
| TableFailure.FailsIff | kernel/file.c:92-93 | over the rounds of a write, a walk_block that fails comes up if and only if the write gets past the direct blocks without an indirect block and the free blocks equal the holes before; FileWrite excludes exactly that |
| TableFailure.FullDiskFails | kernel/file.c:92-93 | one byte written at offset 40960 of an empty file on a full disk is such a write |
| RoundTrip.ImageRoundTrip | scripts/mkxxx.c:173-231 | what mkxxx stores of any file of up to 2058 blocks is what the kernel finds by its name and reads, at every offset within its blocks; the frames that this takes |
| RoundTrip.BuildAndMount | scripts/mkxxx.c:233-276 | a formatted image always has room for the file; the kernel finds it and sees its blocks |
| RoundTrip.ReadOverWrite | kernel/file.c:84-127 | over direct or allocated blocks the kernel reads back what it wrote, if and only if as many blocks are free as those lack; over allocated blocks always |
| Bytes.WithBytesAt | lib/lib.c:12-20 | copying bytes into a frame replaces those bytes and keeps the rest, stale as it is |
| ElfFormat.HeadersRead | include/elf.h:46-72 | what exec and create_proc read of a file's headers are the fields laid out there: magic, and kind, offset, address and sizes of every program header, wherever the table lies |
| ElfFormat.HeadersRoundTrip | include/elf.h:46-72 | reading the headers undoes writing them |
| Elf.ImageByte | kernel/exec.c:54-72 | at its address the process reads byte x of a segment as the file has it, up to p_filesz |
| Elf.ImageCovers | kernel/exec.c:54-77 | the pages mapped are exactly those with a byte of a loaded segment, and the stack's |
| Elf.NextPageFree | kernel/exec.c:61-72 | the page to be mapped next lies in the window and is not mapped yet |
| Elf.LoadedMore | kernel/exec.c:61-72 | page after page what is mapped is what the headers describe, over what the frames held |
| Elf.TailIff | kernel/exec.c:61-69 | a page is zero from p_filesz on, whatever its frame held, if and only if p_filesz does not lie in it |
| Elf.BssByte | kernel/exec.c:61-69 | a byte between p_filesz and p_memsz reads as zero exactly if its page starts beyond p_filesz or its frame held a zero there |
| Elf.BssIff | kernel/exec.c:61-69 | all those bytes are zero, whatever the frames held, if and only if no loaded segment has p_memsz > p_filesz |
| ExecSpace.PageInPages | kernel/exec.c:64-71 | mapping a fresh frame changes that page of that address space alone |
| ExecSpace.MappedStart | kernel/exec.c:36-38 | clearing empties the window and touches no other address space |
| ExecSpace.NothingCached | kernel/exec.c:36-38 | after clearing no translation is cached |
| ExecSpace.MappedMore | kernel/exec.c:61-72 | page by page the window fills as listed, and no other address space changes |
| ExecSpace.NeedMore | kernel/exec.c:61-72 | a page more takes one frame and one for each table missing on its path |
| ExecSpace.HeadWindow | kernel/exec.c:33-40 | once the directory is read, the window cleared and the first block read, the window is empty, no other address space has changed, and the free list is two frames shorter than clearing alone would leave it |
| ExecSpace.WasBefore | kernel/exec.c:33-72 | the frames that exec hands out hold what they held before it |
| ExecSteps.ExecRefines | kernel/exec.c:33-91 | exec keeps the system in order and replaces exactly the caller's window |
| ExecSteps.RefuseRefines | kernel/exec.c:44-50 | exec of a file without the ELF magic keeps the system in order and empties exactly the caller's window |
| ExecSteps.ExecCost | kernel/exec.c:33-82 | exec takes exactly one frame for each page, the stack's included, one for each missing table, which is one for each 2 MB region without a PT where PDPT and PD are there, one for each block read to fill the pages, and two for the directory block and the file's first block |
| ExecSteps.SpawnCost | kernel/proc.c:236-293 | a new process takes exactly a PML4, a frame for each page, and if it has any a PDPT, a PD and a PT for each 2 MB region |
| ExecSteps.SpawnRefines | kernel/proc.c:236-293 | a new process sees its image and zeros elsewhere; the others see no change |
| Elf.ReadsWithin | kernel/exec.c:61-68 | the blocks read for the pages so far are among those of the whole image |
| Filling.FilledMore | kernel/exec.c:61-72 | a page more, with the blocks read to fill it, leads on towards the image at the stated cost |
| Exec.ExactReadsAre | kernel/file.c:59-75 | a read of at most a block from a block boundary takes no frame for no byte, else one, and two from block 10 on |
| Exec.Open | kernel/exec.c:33-33 | the inode of that name, and the directory block in a frame that is kept |
| Exec.ReadHeader | kernel/exec.c:40-40 | the first 128 bytes, and the first block in a frame that is kept |
| Exec.PageFrame | kernel/exec.c:62-69 | the frame of a page, byte by byte: the file's below p_filesz, zeros if it starts beyond, else what the frame held; the blocks read for it stay in frames of their own |
| Exec.LoadSegment | kernel/exec.c:57-72 | the loop loads exactly the pages of the segment and keeps exactly the blocks read |
| Exec.LoadAll | kernel/exec.c:53-78 | all PT_LOAD headers in turn, other kinds ignored |
| Exec.MapStack | kernel/exec.c:80-82 | a zeroed frame is mapped below USTACKTOP |
| Exec.Execve | kernel/exec.c:13-93 | the window is exactly the image the file describes, over what its frames held before, and a zeroed stack page; the system makes the step Exec, and the frames taken are exactly two, one for each page and each missing table, and one for each block that the headers have it read; -1 and the step Refuse exactly without the ELF magic |
| FillLater.LagsMap | kernel/proc.c:122-123 | mapping a page neither reads nor moves what data frames hold: machines that differ only there still do |
| Spawn.Memmap | kernel/proc.c:82-98 | the pages of a segment are mapped to frames that keep what they held |
| Spawn.Memcpy | kernel/proc.c:123-123 | once p_memsz bytes are copied through the new address space, the machine is as if each page had been filled before it was mapped |
| Spawn.LoadImg | kernel/proc.c:100-143 | all PT_LOAD segments byte by byte, over what the frames held, and a zeroed stack page; nothing without the ELF magic |
| Spawn.BootByte | kernel/proc.c:121-124 | each byte of a segment up to p_memsz is the image's, whatever p_filesz is |
| Spawn.CreateProc | kernel/proc.c:236-293 | the first free slot runs a new process whose window is the image: the step Spawn; the frames taken are exactly those of ExecSteps.SpawnCost |
| OpenFiles.CountCovers | kernel/file.c:23-34 | a count is at least the number of live descriptors; count 0 means no descriptor |
| OpenFiles.InstallInv | kernel/file.c:182-209 | an open at descriptor 0 keeps the accounting, counting what it overwrites as lost |
| OpenFiles.CopyInv | kernel/proc.c:490-496 | fork's loop keeps it after every descriptor |
| OpenFiles.ExitInv | kernel/proc.c:375-382 | exit keeps it, though pointers with other references stay in the dead slot |
| OpenFiles.NeverRecycled | kernel/file.c:23-34 | over every run of opens, forks and exits, an entry that allocfile hands out is named by no live descriptor |
| OpenFiles.StepExact | kernel/file.c:182-209 | a step keeps every count equal to its live descriptors if and only if it is no open over a descriptor 0 in use |
| OpenFiles.ExactIff | kernel/file.c:182-209 | over every run all counts are exact afterwards if and only if they were before and no such open was made |
| OpenFiles.LostForever | kernel/file.c:189-206 | a file whose count exceeds its descriptors stays so and is never free again |
| OpenFiles.FileTable.AllocFd | kernel/file.c:14-22 | the first NULL descriptor, -1 exactly if there is none |
| OpenFiles.FileTable.AllocFile | kernel/file.c:23-34 | the first unused entry, named by no live descriptor |
| OpenFiles.FileTable.SysOpen | kernel/file.c:182-209 | 0, 1 or -1 and when; on 0 the first entry without references is the file of descriptor 0 with count 1 and every other descriptor and count is as before, else nothing changes |
| OpenFiles.FileTable.SysOpenCons | kernel/file.c:134-153 | the same for the console |
| OpenFiles.FileTable.CopyFiles | kernel/proc.c:490-496 | the child's table is the parent's and every file counts once more for each descriptor |
| OpenFiles.FileTable.ReleaseFiles | kernel/proc.c:375-382 | every descriptor gives up its reference |
| Console.RowsSpell | kernel/console.c:64-88 | wrapping at 80 columns loses and reorders nothing |
| Console.RowsBreak | kernel/console.c:67-70 | a line break, \n or \r, ends the row: what follows is laid out as if it came first |
| Console.RowsCut | kernel/console.c:83-88 | text without line breaks is cut every 80 characters |
| Console.RowSeen | kernel/console.c:71-86 | of all rows the last 24 are on the screen, each in its place, with blanks to its right |
| Console.Memcpy | lib/lib.c:12-20 | the forward copy moves an overlapping region down unharmed |
| Console.Screen.constructor | kernel/console.c:41-54 | a cleared screen with the cursor at its start shows the empty output |
| Console.Screen.NewLine | kernel/console.c:69-81 | a new row, scrolled by one if the screen is full |
| Console.Screen.PutChar | kernel/console.c:64-88 | the 80x24 cells are always the last 24 rows of the whole output, zeros elsewhere, the cursor at its end and in range |
| Console.Screen.Write | kernel/file.c:170-180 | the same for a buffer |

## Left out

- Refinement.CopyOnWriteRefinesEagerCopy: user accesses are whole 64-bit words inside the window; each step is served with enough free frames, since the code does not check most allocations; fork asks for a mapped stack page, since the kernel's copy of an unmapped one faults in kernel mode.
- Refinement.StepRefines: hardware accessed and dirty bits and translations cached speculatively during a trap are not modelled; between traps the MMU may cache and drop translations at will.
- Proc.Kernel.SysFork: the copied register set is not modelled; the open files of fork and exit are in OpenFiles.
- Proc.Kernel.SysFork: with an empty slot list the code reads through a null pointer; the model asks for a free slot.
- Trap.PageFault: asks that the error code is true of the tables and the address in the lower half; the hlt of panic, which may never end, is only reported.
- Mm.Machine.constructor: takes the page array with all counts 0; the code lays it over memory that it does not clear and increments what is there.
- Mm.Machine.InitPage: asks for counts of 0 and for a kernel PML4 with an empty lower half, likewise.
- ProcVm.ForkVm: asks for no free frame at all or for all that fork takes; in between the code goes on through the null pages that insert_page refuses.
- Layout.FilledStep: read() on the host file is taken to return full blocks until the end.
- Mkxxx.Image.WriteFile: is stated for a new inode, the only use; the inode's pointers are zero because the image is.
- Mkxxx.Image.CreateFile: asks that one of the 1280 inodes is the lowest free one and that the directory has not reached 2058 blocks.
- Mkxxx.Image.constructor: the super block and the raw bytes of bitmaps and inode table (blocks 1 to 13) are fields, not blocks.
- KernelFs.Volume.FileRead: asks that every block up to the first unallocated one lies among the 2058 and has its indirect block: elsewhere the code reads through a null or stale pointer.
- KernelFs.Volume.FileWrite: asks for at most 2058 blocks, for no failing walk as TableFailure.FailsIff has it, and for the frames of the whole write even if the disk fills up before its end; what the frames that it keeps hold afterwards is not stated.
- KernelFs.Volume.constructor: the four frames that read_superblock takes at boot are not taken from the machine, and bitmap and inodes come from arrays.
- Directory.StrCmp: names of one to thirteen characters; longer ones are not terminated in the entry.
- Exec.Execve: asks for the frames that it takes, for segments that do not overlap, start at a block of the file, lie below the stack page and have their headers in the first 128 bytes, and for a file that exists; the file's bytes reach a frame through a byte buffer; entry point and registers are not modelled.
- Spawn.CreateProc: asks for the frames that it takes and for page-aligned segments below 4 GB that do not overlap, lie below the stack page and are within the image; entry point and registers are not modelled.
- OpenFiles.FileTable.SysOpen: the type, offset and inode of an entry are not modelled.
- OpenFiles.NeverRecycled: sys_close is not a system call and is not modelled.
- The 32-bit build, boot, assembly, descriptor tables, interrupt controllers, timers and IDE port I/O.
- VMX and EPT.
- Kernel-mode writes to user buffers, and interrupts during a trap.
- alloc_full_vm_new, whose only call is commented out, and cache.c, which bread does not use.
- The results of sys_waitpid and sys_yield.
- print's number formatting, the keyboard buffer and its tables, cons_read.
- sys_lseek, sys_read and sys_write, which dispatch on the descriptor's type.
