# Memory management and support routines of an x86 microkernel, in Dafny

This project models the memory-management core of a small 32-bit x86 kernel, together with the self-contained routines it builds on. Each file below is one module; each module follows one source file.

- **Kernel heap** (`kheap.dfy`, with `heap_align.dfy`, `heap_layout.dfy` and `heap_state.dfy`): the liballoc-style allocator of `kern/vm/kheap.c`.
  - Major blocks are runs of heap pages above 0xE0000000, found in the heap page bitmap by `allocator_alloc`.
  - Each major holds an address-ordered list of minor records, each tagged `MEMB` while live and `DEAD` once freed.
  - User pointers are moved to a 16-byte boundary by `ALIGN` and back by `UNALIGN`.
  - The class `KernelHeap.Heap` holds the allocator's globals and carries its methods: `lalloc_malloc`, `lalloc_free`, `lalloc_realloc`, `lalloc_calloc`, `allocate_new_page`, `allocator_alloc`/`allocator_free` and `kheap_smart_alloc`.
  - The value-level invariant `HeapState.Inv` holds after every operation. It says that majors are well formed, records lie in address order without overlap, `usage` accounts for every record, no two majors share a page, and every page of a major is marked and mapped.
- **Dumb placement allocator** (`placement.dfy`): the bump pointer of `kern/vm/kmalloc.c` and of the dumb branches of `kmalloc`, `kmalloc_p` and `kmalloc_ap` in `kern/vm/kheap.c`. `kmem.dfy` dispatches these entry points between the placement allocator and the heap.
- **Frame bitmaps** (`bitmap.dfy`, `physical.dfy`, `scheduler.dfy`): one bit per 4 KiB frame, in 32-bit words.
  - The physical allocator of `kern/vm/physical.c` offers the lowest free frame but does not mark it. Two allocations with no reservation between them therefore return the same frame, and every page of a heap run would be mapped to one physical frame. The heap in this model draws on the corrected allocator, which marks each frame it hands out (see "## Findings").
  - The scheduler of `kern/scheduler/scheduler.c` keeps process and thread control blocks one per frame. It also holds the ID counters and appends each thread to its process's list.
- **C library** (`std_string.dfy`, `std_memory.dfy`, `std_token.dfy`, `std_number.dfy`, `std_bits.dfy`, `ctype.dfy`): the string, memory and number routines of `kern/stdlib/std.c`, plus the character-class macros and `DIV_ROUND_UP` of `kern/includes/stdlib.h`. Memory is a byte array or sequence indexed by address.
- **Machine encodings** (`types.dfy`, `bios.dfy`, `interrupt.dfy`, `cpuid.dfy`):
  - byte swapping;
  - real-address-mode far pointers (Intel SDM Vol. 3A, section 20.1.1);
  - interrupt gate descriptors and the IDTR (Intel SDM Vol. 3A, section 6.11);
  - decoding of `cpuid` registers (Intel SDM Vol. 2A, "CPUID—CPU Identification").

C's 32-bit arithmetic is written out where the source relies on it: addresses, counters and the reserved request size wrap modulo 2^32 as they do on i386. Where a wrap is a defect (the `calloc` product, the page count of a new major, the record size `lalloc_malloc` looks for), the corrected members keep the size exact and the as-written members show the wrap. Where verifying the code as written exposed a defect, the model keeps both versions, and "## Findings" lists each pair. One member models the code as written and exhibits the defect. The other is the corrected definition, which the rest of the model uses.

## Model

| member | source | states |
|---|---|---|
| `Types.DwordSwap` | kern/includes/types.h:49 | the result holds the four bytes of x in reverse order |
| `Types.DwordSwapInvolution` | kern/includes/types.h:49 | swapping the bytes of a 32-bit word twice gives the word back |
| `Types.WordSwap` | kern/includes/types.h:50 | the low byte of the result is the high byte of x and the other way round |
| `Types.WordSwapInvolution` | kern/includes/types.h:50 | swapping the bytes of a 16-bit word twice gives the word back |
| `Types.Expect` | kern/includes/types.h:28-29 | `likely`/`unlikely` give 1 exactly when x is non-zero, and 0 otherwise |
| `Types.ExpectIgnoresHint` | kern/includes/types.h:28-29 | the branch hint never changes the value of the condition |
| `Types.Assert` | kern/includes/types.h:46 | `ASSERT` panics exactly when the condition is false, with the file, the line and the text of the condition |
| `CType.ToLower` | kern/includes/stdlib.h:63 | an upper-case letter maps to the lower-case letter at the same distance from 'a'; any other code is unchanged |
| `CType.ToUpper` | kern/includes/stdlib.h:64 | a lower-case letter maps to the upper-case letter at the same distance from 'A'; any other code is unchanged |
| `CType.CaseRoundTrip` | kern/includes/stdlib.h:63-64 | `tolower` undoes `toupper` on lower-case letters and the other way round; neither moves a code that is not a letter |
| `CType.SpaceCodes` | kern/includes/stdlib.h:59-60 | `isspace` holds exactly for 32 and the codes 9 to 13 |
| `CType.GraphSpaceDisjoint` | kern/includes/stdlib.h:54 | no code is both `isgraph` and `isspace` |
| `CType.PrintCodes` | kern/includes/stdlib.h:56 | `isprint` holds exactly for the codes 0x21 to 0x7E and the white-space codes |
| `CType.CntrlPrintDisjoint` | kern/includes/stdlib.h:52 | no code is both `iscntrl` and `isprint`, and the codes 0x0E to 0x1F are neither, since `iscntrl` covers only 0 to 8 |
| `CType.CDiv` | kern/includes/stdlib.h:81 | C's `/`, which truncates toward zero: the Euclidean quotient for a non-negative dividend, its negation mirrored for a negative one |
| `CType.DivRoundUpIsNearest` | kern/includes/stdlib.h:81 | `DIV_ROUND_UP(n, d)` as written rounds n / d to the nearest integer: its product with d lies within d/2 of n |
| `CType.DivRoundUpCounterexample` | kern/includes/stdlib.h:81 | `DIV_ROUND_UP(1, 4)` as written is 0, whose product with 4 falls short of 1 |
| `CType.DivCeil` | kern/includes/stdlib.h:81 | the rounding up the name promises: the least r with r * d >= n |
| `CType.DivCeilLeast` | kern/includes/stdlib.h:81 | every k with k * d >= n is at least `DivCeil(n, d)` |
| `Bios.Segment` | kern/platform_x86/bios.h:68-70 | the segment has its low 12 bits clear, and shifted left by 4 it gives bits 16 to 19 of the linear address |
| `Bios.Offset` | kern/platform_x86/bios.h:64-66 | the offset is the low 16 bits of the linear address |
| `Bios.LinearToFar` | kern/platform_x86/bios.h:63-71 | each out-pointer is written exactly when it is given, with the segment and offset above |
| `Bios.FarRoundTrip` | kern/platform_x86/bios.h:53-71 | segment * 16 + offset gives back the low 20 bits of the linear address (real-address-mode translation, section 20.1.1 of the Intel SDM Vol. 3A) |
| `Bios.SplitJoin` | kern/platform_x86/bios.h:53-71 | any segment and offset with the two properties above join back to the low 20 bits |
| `Bios.FarRoundTripBelow1M` | kern/platform_x86/bios.h:53-71 | below 1 MiB the far pointer gives back the linear address exactly |
| `Bios.DocumentedExamples` | kern/platform_x86/bios.h:60-61 | 0x00D000 maps to 0x0000:0xD000 and 0x0B8000 to 0xB000:0x8000 |
| `Interrupt.Low16` | kern/platform_x86/interrupt.c:113 | `offset_1` is the low 16 bits of the handler address |
| `Interrupt.High16` | kern/platform_x86/interrupt.c:114 | `offset_2` shifted back up gives the high 16 bits of the handler address |
| `Interrupt.SetGateValue` | kern/platform_x86/interrupt.c:110-118 | the gate holds the selector, the flags and a zero byte, and its two offset halves join back to the handler address (the gate layout of section 6.11 of the Intel SDM Vol. 3A) |
| `Interrupt.HalvesJoin` | kern/platform_x86/interrupt.c:113-114 | the two halves rejoin to the handler address |
| `Interrupt.InterruptTable.constructor` | kern/platform_x86/interrupt.c:5 | a table of 256 empty gates and no IDTR loaded |
| `Interrupt.InterruptTable.SetGate` | kern/platform_x86/interrupt.c:110-118 | only entry `entry` changes, to the gate for that handler, segment and flags |
| `Interrupt.InterruptTable.Init` | kern/platform_x86/interrupt.c:40-75 | every vector below 19 gets its exception handler and every other vector the dummy handler, all as present ring-0 32-bit interrupt gates (0x8E) in the kernel code segment, and the IDTR then covers the table with the corrected limit 2047 (2048 as written, see `Interrupt.InterruptTable.InstallAsWritten`) |
| `Interrupt.InterruptTable.Install` | kern/platform_x86/interrupt.c:123-133 | corrected: the IDTR gets the table base and a limit one less than the table size |
| `Interrupt.InterruptTable.InstallAsWritten` | kern/platform_x86/interrupt.c:123-133 | as written, the IDTR limit is the table size itself |
| `Interrupt.InstalledLimitExact` | kern/platform_x86/interrupt.c:72 | with limit size - 1 the processor admits exactly the offsets inside the 2048-byte table |
| `Interrupt.InstallAsWrittenOverreach` | kern/platform_x86/interrupt.c:72 | with limit 2048 the processor admits offset 2048, one byte past the table |
| `Interrupt.IntEnabled` | kern/platform_x86/interrupt.c:81-85 | interrupts count as enabled exactly when bit 9 (IF) of EFLAGS is set |
| `Bitmap.WordsScanned` | kern/vm/physical.c:19 | `INDEX_FROM_BIT(nframes)`: the number of whole 32-bit words below nframes, which is all any scan covers |
| `Bitmap.BufferTooSmall` | kern/vm/physical.c:94 | the buffer of `INDEX_FROM_BIT(nframes)` bytes holds a quarter of the words the scans read |
| `Bitmap.Off` | kern/vm/physical.c:20 | `OFFSET_FROM_BIT(g)` is g mod 32, as a shift amount |
| `Bitmap.UsedAt` | kern/vm/physical.c:71 | frame i * 32 + j is in use exactly when bit j of word i is set |
| `Bitmap.FullWordUsed` | kern/vm/physical.c:64 | every frame of a word equal to 0xFFFFFFFF is in use |
| `Bitmap.SetFrameAt` | kern/vm/physical.c:27-32 | after `set_frame(g)` frame h is in use exactly when h is g or it was in use before |
| `Bitmap.ClearFrameAt` | kern/vm/kheap.c:143-148 | after `clear_frame(g)` frame h is in use exactly when h is not g and it was in use before |
| `Bitmap.SetFrame` | kern/vm/physical.c:27-32 | the words after `set_frame`: the same length, with exactly frame g added to the frames in use |
| `Bitmap.ClearFrame` | kern/vm/kheap.c:143-148 | the words after `clear_frame`: the same length, with exactly frame g taken from the frames in use |
| `Bitmap.SetBit` | kern/vm/kheap.c:131-138 | sets the bit in place: the array afterwards is `SetFrame` of the array before |
| `Bitmap.ClearBit` | kern/vm/kheap.c:143-148 | clears the bit in place: the array afterwards is `ClearFrame` of the array before |
| `Bitmap.FirstClearUnique` | kern/vm/physical.c:61-78 | at most one result is the first clear frame, so the search is deterministic |
| `Bitmap.FirstClearAbove` | kern/vm/physical.c:61-78 | when frames below k are all in use, the first clear frame is at least k, or there is none |
| `Bitmap.FindFirstClear` | kern/vm/physical.c:61-78 | the result is the lowest frame in the scanned words whose bit is clear, or -1 exactly when every scanned frame is in use |
| `Bitmap.SkipSetBits` | kern/vm/kheap.c:424-444 | the as-written run search passes over set bits with its run count reset |
| `Bitmap.RunStraddlesFullWord` | kern/vm/kheap.c:420-446 | with words 0x7FFFFFFF, 0xFFFFFFFF, 0xFFFFFFFE and two pages wanted, the search as written answers frame 31, although frame 32 is in use: skipping a full word leaves the run count standing |
| `Bitmap.ViewAt` | kern/vm/kheap.c:428 | the Boolean view of the words reads frame g as in use exactly when its bit is set |
| `Bitmap.ClearRunIsFreeRun` | kern/vm/kheap.c:428-440 | a run of clear entries in the view is a run of free frames in the words |
| `Bitmap.StepFound` | kern/vm/kheap.c:438-440 | when the run count reaches the wanted length, the run ends here and no earlier start has a run that long |
| `Bitmap.StepFullWord` | kern/vm/kheap.c:422 | a full word ends any run: the count restarts at 0 after it |
| `Bitmap.ScanRunWord` | kern/vm/kheap.c:424-444 | one word of the run search: either a run of `pages` clear frames, the first one, ends in this word, or the run count and its start are carried on to the next word |
| `Bitmap.FindRun` | kern/vm/kheap.c:412-451 | the run search with the count reset at full words: the first frame of the lowest run of `pages` free frames within the scanned words, or -1 when there is none or `pages` is 0 |
| `Bitmap.RunsBefore` | kern/vm/kheap.c:420-446 | no start below the result has a free run of the wanted length |
| `Physical.RoundUpPage` | kern/vm/physical.c:121-125 | the address moved up to a page boundary in 32-bit arithmetic: a multiple of 4096 less than a page above it, or 0 when the addition wraps |
| `Physical.FrameAddress` | kern/vm/physical.c:101-105 | `find_free_frame() * PAGE_SIZE` in 32-bit arithmetic: the frame's address, and 0xFFFFF000 for the -1 of a full bitmap |
| `Physical.FrameAddressAligned` | kern/vm/physical.c:103 | the address handed out is always on a page boundary |
| `Physical.FrameAddressFrame` | kern/vm/physical.c:103 | dividing the address by the page size gives the frame back |
| `Physical.PhysicalAllocator.Init` | kern/vm/physical.c:87-96 | `nframes` is the memory size in pages plus 256, and the bitmap starts with every frame free |
| `Physical.PhysicalAllocator.SetFrame` | kern/vm/physical.c:27-32 | the bitmap afterwards is `SetFrame` of the bitmap before, at the frame of the address |
| `Physical.PhysicalAllocator.FindFreeFrame` | kern/vm/physical.c:61-78 | the lowest free frame among the scanned words, or -1 |
| `Physical.PhysicalAllocator.AllocatePhys` | kern/vm/physical.c:101-105 | as written: the address of the lowest free frame; the frame stays free, since the bitmap is not written |
| `Physical.PhysicalAllocator.AllocatePhysMarked` | kern/vm/physical.c:101-105 | corrected: the address of the lowest free frame, which is marked in the bitmap and nothing else; 0xFFFFF000 with the bitmap unchanged when no frame is free |
| `Physical.MarkedAllocationsDiffer` | kern/vm/physical.c:101-105 | after a marked allocation the next one offers a higher frame or none, so no frame is handed out twice, and below 4 GiB the two addresses differ |
| `Physical.PhysicalAllocator.DeallocatePhys` | kern/vm/physical.c:110-112 | nothing changes |
| `Physical.PhysicalAllocator.ReservePhys` | kern/vm/physical.c:119-130 | every frame below the address rounded up to a page is in use afterwards, and no other frame changes |
| `Physical.ReservedNotAllocated` | kern/vm/physical.c:101-130 | after `vm_reserve_phys(limit)` no frame handed out lies below the rounded limit |
| `Physical.AllocateTwiceSame` | kern/vm/physical.c:101-105 | as written: two allocations with no reservation between them return the same address |
| `Scheduler.SlotAddress` | kern/scheduler/scheduler.c:112-113 | structure frame f lies at TCB_START + f * 4096: on a page boundary, and inside the structure area for every frame the bitmap can describe |
| `Scheduler.List` | kern/scheduler/scheduler.c:155-166 | the thread list from a TCB by its `next` links: empty exactly for NULL, and every entry a TCB at or above the head |
| `Scheduler.Last` | kern/scheduler/scheduler.c:157-166 | the TCB the append loop stops at: the one with a NULL `next`, reached from the head |
| `Scheduler.AppendExtendsList` | kern/scheduler/scheduler.c:154-167 | linking a new TCB above all others behind the last one keeps the links acyclic, and the process's thread list becomes the old list plus the new TCB |
| `Scheduler.IdsDistinct` | kern/scheduler/scheduler.c:24-41 | with each structure in memory of its own, no two TCBs carry the same thread ID and no two PCBs the same process ID |
| `Scheduler.AppendedAsWritten` | kern/scheduler/scheduler.c:138-166 | as written: the new TCB keeps the stale `next` its page held, and the walk starts from whatever head it is given; with a NULL stale value this is the corrected append |
| `Scheduler.StaleNextCycles` | kern/scheduler/scheduler.c:150-166 | as written, a new TCB whose page still holds the head's address closes a cycle with the head, so that list no longer ends |
| `Scheduler.StaleThreadJoinsOtherList` | kern/scheduler/scheduler.c:121-127 | as written, a new PCB whose page still holds another process's thread appends its first thread to that other process's list |
| `Scheduler.InvAddTcb` | kern/scheduler/scheduler.c:138-151 | a TCB written at the next free frame with the next thread ID and a NULL `next` keeps the invariant: the slot is unused, above every TCB, and the ID is new |
| `Scheduler.InvAddPcb` | kern/scheduler/scheduler.c:108-121 | a PCB written at the next free frame with the next process ID and a NULL `thread` keeps the invariant |
| `Scheduler.InvSetThread` | kern/scheduler/scheduler.c:127 | storing a TCB (or NULL) as a PCB's thread keeps the invariant |
| `Scheduler.AddTcb` | kern/scheduler/scheduler.c:138-151 | the new slot is not yet a TCB, is not NULL, lies above every TCB, and the TCB table stays well-formed with it |
| `Scheduler.InsertKeepsLast` | kern/scheduler/scheduler.c:157-166 | a new unlinked TCB changes neither the links nor the last TCB of any existing list |
| `Scheduler.InsertThenLink` | kern/scheduler/scheduler.c:150-166 | writing the TCB and then linking it behind the last one gives the appended table, whose list is the old list plus the new TCB |
| `Scheduler.LinkKeepsLinked` | kern/scheduler/scheduler.c:160 | pointing the last TCB at a higher TCB keeps the links acyclic |
| `Scheduler.PcbsGrow` | kern/scheduler/scheduler.c:138-151 | adding a TCB slot keeps the PCB table well-formed, and the new slot is not a PCB |
| `Scheduler.Scheduler.InitAsWritten` | kern/scheduler/scheduler.c:93-102 | as written, the frame count lands in a local that shadows the file-scope one, which stays 0; the bitmap starts clear |
| `Scheduler.Scheduler.Init` | kern/scheduler/scheduler.c:93-102 | the file-scope frame count is 0xC000, the bitmap starts clear and there are no structures |
| `Scheduler.Scheduler.FindFreeFrame` | kern/scheduler/scheduler.c:70-87 | the lowest clear frame of the scanned words, or -1 |
| `Scheduler.Scheduler.SetFrame` | kern/scheduler/scheduler.c:48-52 | the bitmap afterwards is `SetFrame` of the bitmap before |
| `Scheduler.Scheduler.NewPid` | kern/scheduler/scheduler.c:24-30 | the counter goes up by one in 32-bit arithmetic and the new value is returned |
| `Scheduler.Scheduler.NewTid` | kern/scheduler/scheduler.c:35-41 | the counter goes up by one in 32-bit arithmetic and the new value is returned |
| `Scheduler.Scheduler.TakeFrame` | kern/scheduler/scheduler.c:109-110 | the next free structure frame is marked and returned; -1 exactly when all are taken, with nothing changed |
| `Scheduler.Scheduler.AllocTcb` | kern/scheduler/scheduler.c:139-151 | corrected: a new TCB at the next free slot, above all others, with the next thread ID, greater than every thread ID already given out, and its `next` set to NULL; NULL with nothing changed when no frame is free |
| `Scheduler.Scheduler.LinkAfterLast` | kern/scheduler/scheduler.c:154-167 | the walk from the head stops at the last TCB and only its `next` changes, to the new TCB |
| `Scheduler.Scheduler.NewTcb` | kern/scheduler/scheduler.c:138-170 | corrected, with the new TCB's `next` set to NULL: a new TCB with the next thread ID, greater than every thread ID already given out, appended to the thread list of the process when there is one, so that list grows by exactly the new TCB; NULL with nothing changed when no frame is free |
| `Scheduler.Scheduler.NewProcess` | kern/scheduler/scheduler.c:108-132 | corrected, with `thread` and `next` set to NULL before the walk: a new PCB with the next process ID, greater than every process ID already given out, and, when a second frame is free, a fresh TCB as its one-thread list with a thread ID above every earlier one; other PCBs are unchanged; NULL with nothing changed when no frame is free |
| `Scheduler.Scheduler.AllocPcb` | kern/scheduler/scheduler.c:109-121 | corrected: a new PCB at the next free slot with the next process ID, greater than every process ID already given out, and its `thread` set to NULL; other PCBs unchanged |
| `Scheduler.Scheduler.SetThread` | kern/scheduler/scheduler.c:127 | only the `thread` field of that PCB changes |
| `Scheduler.Scheduler.LinkNew` | kern/scheduler/scheduler.c:154-167 | the TCB table becomes the appended table, whose list from the head is the old list plus the new TCB |
| `Scheduler.ClearedWords` | kern/scheduler/scheduler.c:101 | a bitmap of zero words has every frame free |
| `Scheduler.PrefixFirstClear` | kern/scheduler/scheduler.c:70-87 | when exactly the first n frames are in use, the search finds frame n, or -1 exactly when n covers every scanned frame |
| `Scheduler.NoFrameAsWritten` | kern/scheduler/scheduler.c:72-86 | with the shadowed count of 0 no word is scanned, so every search answers -1 |
| `StdBits.PopCnt` | kern/stdlib/std.c:678-689 | the SWAR sequence returns the number of set bits of x, as counted bit by bit in each byte |
| `StdBits.PopCntBound` | kern/stdlib/std.c:678-689 | the population count of a 32-bit word is at most 32 |
| `StdBits.PopCntCorrect` | kern/stdlib/std.c:686-688 | multiplying the per-byte counts by 0x01010101 and keeping the top byte gives the total count of set bits |
| `StdBits.TopByteSum` | kern/stdlib/std.c:688 | when every byte is below 16, the top byte of `x * 0x01010101` is the sum of the four bytes |
| `StdBits.CountsPerByte` | kern/stdlib/std.c:680-686 | after the pair, nibble and byte steps, the bytes of the word add up to the number of set bits of the input |
| `StdBits.CountsByte0` | kern/stdlib/std.c:680-686 | after the three SWAR steps, byte 0 holds the number of set bits of byte 0 of the input |
| `StdBits.CountsByte1` | kern/stdlib/std.c:680-686 | byte 1 holds the number of set bits of byte 1 of the input |
| `StdBits.CountsByte2` | kern/stdlib/std.c:680-686 | byte 2 holds the number of set bits of byte 2 of the input |
| `StdBits.CountsByte3` | kern/stdlib/std.c:680-686 | byte 3 holds the number of set bits of byte 3 of the input |
| `StdString.Len` | kern/stdlib/std.c:44-52 | the length of a terminated string ends on a NUL byte inside memory |
| `StdString.LenNoNul` | kern/stdlib/std.c:44-52 | no byte before that NUL is NUL, so the length is the position of the first NUL |
| `StdString.Str` | kern/stdlib/std.c:44-52 | the string at p has exactly `Len` bytes, none of them NUL |
| `StdString.LenUnique` | kern/stdlib/std.c:44-52 | any n with a NUL at p + n and none before it is the length: the length is well defined |
| `StdString.Strlen` | kern/stdlib/std.c:44-52 | `strlen` returns the number of bytes before the first NUL |
| `StdString.Strchr` | kern/stdlib/std.c:104-111 | `strchr` returns the first position holding c truncated to a byte, searching up to and including the terminator; NULL exactly when no byte up to the terminator matches; searching for NUL finds the terminator |
| `StdString.CompareAt` | kern/stdlib/std.c:155-161 | two NUL-free strings that agree up to k and differ or end there are equal, or ordered, as their bytes at k (0 past the end) compare |
| `StdString.Strcmp` | kern/stdlib/std.c:155-161 | `strcmp` is zero exactly when the strings are equal, negative exactly when the first sorts before the second byte-wise unsigned, positive exactly when it sorts after |
| `StdString.MismatchCompares` | kern/stdlib/std.c:155-161 | at the byte where the scan of `strcmp` stops, the sign of the byte difference is the order of the two strings |
| `StdString.CompareBlocksAt` | kern/stdlib/std.c:166-174 | two blocks of equal length that agree up to k and differ at k compare as their bytes at k |
| `StdString.Strncmp` | kern/stdlib/std.c:166-174 | `strncmp` compares exactly n bytes of each (without stopping at NUL): zero, negative or positive exactly as the blocks are equal or ordered |
| `StdString.BlocksCompare` | kern/stdlib/std.c:166-174 | at the first differing byte of two n-byte blocks, the sign of the byte difference is the order of the blocks |
| `StdString.CharMapMatches` | kern/stdlib/std.c:181-214 | two bytes meet in `strcasecmp_charmap` exactly when they are equal or ASCII case partners; only NUL maps to 0 |
| `StdString.Fold` | kern/stdlib/std.c:181-214 | the folded string has the same length and each byte passed through the charmap |
| `StdString.Take` | kern/stdlib/std.c:240-258 | the first n bytes of s (all of s when it is shorter) |
| `StdString.FoldedStr` | kern/stdlib/std.c:220-232 | the folded string is NUL-free and its byte k is the charmap of the byte read at k |
| `StdString.FoldedCompare` | kern/stdlib/std.c:220-232 | strings that agree under the charmap up to k have folded prefixes that agree up to k |
| `StdString.Strcasecmp` | kern/stdlib/std.c:220-232 | `strcasecmp` is zero, negative or positive exactly as the case-folded strings are equal or ordered |
| `StdString.CaseMismatch` | kern/stdlib/std.c:220-232 | at the byte where the case-folded scan stops, the charmap difference is the order of the folded strings |
| `StdString.TakeCompare` | kern/stdlib/std.c:240-258 | the first n bytes of two strings compare as their bytes at the first difference, or are equal when it lies at or past n |
| `StdString.Strncasecmp` | kern/stdlib/std.c:240-258 | `strncasecmp` orders the first n bytes of the case-folded strings: zero when n is 0 or they agree, else the sign of the first difference |
| `StdString.CaseScan` | kern/stdlib/std.c:240-258 | the loop of `strncasecmp` stops at n, at the end of the first string, or at the first byte whose charmap entries differ |
| `StdString.CaseMismatchN` | kern/stdlib/std.c:240-258 | where that scan stops, the value returned orders the first n bytes of the folded strings |
| `StdString.Memchr` | kern/stdlib/std.c:483-491 | `memchr` returns the first position among num bytes holding value, and NULL exactly when none does |
| `StdString.Memcmp` | kern/stdlib/std.c:499-511 | `memcmp` returns only -1, 0 or 1: 0 exactly when the blocks are equal, -1 exactly when the first sorts before the second unsigned byte-wise, 1 exactly when it sorts after |
| `StdString.Strcnt` | kern/stdlib/std.c:694-704 | `std_strcnt` counts the occurrences of the character in the string including its terminator, so counting NUL gives 1 |
| `StdToken.Span` | kern/stdlib/std.c:85-97 | the token scan from p stops at the first byte that is NUL or a delimiter, and every byte before it is neither |
| `StdToken.Skip` | kern/stdlib/std.c:67-73 | the delimiter skip from p stops at the first byte that is not a delimiter, and every byte before it is a (non-NUL) delimiter |
| `StdToken.SpanWithinLen` | kern/stdlib/std.c:85-97 | a token never runs past the terminator of its string |
| `StdToken.InDelims` | kern/stdlib/std.c:70-73 | the inner loop over delim finds c exactly when c is one of the delimiter characters |
| `StdToken.ScanToken` | kern/stdlib/std.c:85-97 | the scanning loop stops at p plus the span of non-delimiters |
| `StdToken.SkipDelims` | kern/stdlib/std.c:67-73 | the `goto cont` loop stops at p plus the run of leading delimiters |
| `StdToken.Cut` | kern/stdlib/std.c:93 | writing the NUL changes byte j to 0 and no other byte |
| `StdToken.CutToken` | kern/stdlib/std.c:85-97 | after the cut, the string at the token start is exactly the scanned bytes, and it contains no delimiter |
| `StdToken.CutRestores` | kern/stdlib/std.c:85-97 | the original string is the token, the delimiter that was overwritten, and the remaining string: cutting loses nothing |
| `StdToken.CutRest` | kern/stdlib/std.c:93-94 | after a cut at j, the rest string starting at j + 1 is the original bytes up to the old terminator |
| `StdToken.CutAt` | kern/stdlib/std.c:136-148 | the token is where the scan started, memory keeps its size, and any rest pointer points at a terminated string |
| `StdToken.TokenFrom` | kern/stdlib/std.c:58-99 | any rest pointer `strtok` keeps points at a terminated string, so the next call is well defined |
| `StdToken.Strsep` | kern/stdlib/std.c:124-150 | a NULL string pointer gives NULL and changes nothing; otherwise the token, the memory afterwards and the new string pointer are those of cutting at the first delimiter or terminator |
| `StdToken.StrsepNextTerminated` | kern/stdlib/std.c:136-148 | when a delimiter is cut, the new string pointer just past it points at a terminated string |
| `StdToken.Tokenizer.constructor` | kern/stdlib/std.c:62 | the static `last` pointer starts NULL |
| `StdToken.Tokenizer.Strtok` | kern/stdlib/std.c:58-99 | NULL with a NULL `last` gives NULL and changes nothing; otherwise the token, memory and new `last` are those of skipping the delimiters and cutting the token found, with no token and a NULL `last` when only delimiters remain |
| `StdToken.ScanCut` | kern/stdlib/std.c:85-97 | the scanning loop of `strtok` cuts the token at q as `strsep` does |
| `StdToken.CutAtSecond` | kern/stdlib/std.c:79-97 | `strtok` skips the first byte of the token, already known not to be a delimiter, before scanning: the outcome is the same cut |
| `StdToken.TokenFromFound` | kern/stdlib/std.c:75-97 | when a non-delimiter follows the skip, `strtok` cuts exactly the token there |
| `StdToken.SpanStep` | kern/stdlib/std.c:85-97 | a non-delimiter byte lengthens the token by one |
| `StdMemory.Overlay` | kern/stdlib/std.c:264-303 | writing data at d changes exactly the bytes d to d + \|data\| - 1 to data and keeps every other byte |
| `StdMemory.OverlayJoin` | kern/stdlib/std.c:264-303 | writing x at d and then y right after it is writing x + y at d |
| `StdMemory.OverlayStr` | kern/stdlib/std.c:264-270 | writing a NUL-free s followed by NUL at d leaves the string s at d |
| `StdMemory.Strcpy` | kern/stdlib/std.c:264-270 | `strcpy` returns dest and writes the source string and its terminator there and nothing else, so the string at dest is the old source string |
| `StdMemory.CopyString` | kern/stdlib/std.c:267 | the copying loop writes s and its terminator at dest |
| `StdMemory.PadTo` | kern/stdlib/std.c:276-289 | n bytes: those of s, then zeros once s runs out |
| `StdMemory.Strncpy` | kern/stdlib/std.c:276-289 | `strncpy` returns dest and writes exactly n bytes there: the source string padded with zeros, with no terminator when the source is at least n long |
| `StdMemory.CopyBounded` | kern/stdlib/std.c:278-282 | the first loop of `strncpy` copies min(n, length + 1) bytes of the string and its terminator |
| `StdMemory.PadJoin` | kern/stdlib/std.c:284-286 | the copied bytes followed by the zero fill are the padded string |
| `StdMemory.StrcatJoins` | kern/stdlib/std.c:295-303 | writing the source string and NUL over the terminator of dest leaves the concatenation at dest |
| `StdMemory.Strcat` | kern/stdlib/std.c:295-303 | `strcat` returns dest, writes the source and its terminator over the old terminator of dest and nothing else, and the string at dest becomes the concatenation |
| `StdMemory.RepStos` | kern/stdlib/std.c:660-661 | the two `rep stos` instructions write count zero bytes at start and nothing else |
| `StdMemory.Memclr` | kern/stdlib/std.c:656-664 | `memclr` zeroes count bytes at start and returns the address just past them (start itself when count is 0) |
| `StdMemory.Memset` | kern/stdlib/std.c:638-651 | `memset` fills num bytes with value and nothing else; for value 0 it returns what `memclr` returns (the end of the block), otherwise ptr |
| `StdMemory.Movs` | kern/stdlib/std.c:536-549 | a forward `rep movs` of count bytes extends the part of the copy already done by count bytes and leaves a distinct source alone |
| `StdMemory.MovsdMovsb` | kern/stdlib/std.c:561-574 | `rep movsd` of some dwords then `rep movsb` of the remaining bytes copies 4 * dwords + remaining bytes in order |
| `StdMemory.BlockCopy` | kern/stdlib/std.c:576-622 | the 4 KiB block loop copies min(num, 4096 * blocks) bytes |
| `StdMemory.BlocksCover` | kern/stdlib/std.c:578 | `(num + 4095) / 4096` blocks of 4096 bytes cover num bytes |
| `StdMemory.Memcpy` | kern/stdlib/std.c:521-633 | a copy of num bytes, with the size classes computed as intended, returns dest and leaves the destination block equal to the old source block and every other byte unchanged |
| `StdMemory.ShortAsWritten` | kern/stdlib/std.c:528-550 | in the short branch, `(num & 0x3F) / 4` dwords and `num & 3` bytes copy num bytes except when num is 64, where they copy none |
| `StdMemory.LongAsWritten` | kern/stdlib/std.c:576-625 | in the block branch the 32-bit block count `(num + 4095) / 4096` covers num unless that sum wraps, and then nothing is copied |
| `StdMemory.ShortCount` | kern/stdlib/std.c:528-575 | below 4096 bytes, the dword and byte counts copy `CopiedAsWritten(num)` bytes, never more than num |
| `StdMemory.MemcpyAsWritten` | kern/stdlib/std.c:521-633 | `memcpy` as written returns dest and copies only `CopiedAsWritten(num)` bytes of the source |
| `StdMemory.MovesAsWritten` | kern/stdlib/std.c:528-630 | the three branches as written copy `CopiedAsWritten(num)` bytes |
| `StdMemory.MemcpyShortfall` | kern/stdlib/std.c:528-630 | as written, `memcpy` copies all num bytes exactly when num is not 64 and the block count does not wrap |
| `StdMemory.MemcpySixtyFour` | kern/stdlib/std.c:528-550 | a 64-byte `memcpy` as written copies nothing |
| `StdMemory.Memmove` | kern/stdlib/std.c:666-671 | with the corrected `memcpy`: `memmove` returns dest and leaves the n bytes at dest equal to the old n bytes at src, even when the two blocks overlap, because it copies through a temporary buffer |
| `StdMemory.MemmoveAsWritten` | kern/stdlib/std.c:666-671 | as written, with `memcpy` as written for both copies: dest is returned, and only the first `CopiedAsWritten(n)` bytes of src reach dest, whatever the overlap |
| `StdMemory.MemmoveSixtyFour` | kern/stdlib/std.c:666-671 | a 64-byte `memmove` as written leaves memory unchanged |
| `StdMemory.CopiedAtMost` | kern/stdlib/std.c:528-625 | `memcpy` as written never moves more bytes than it is asked to |
| `StdNumber.DigitOf` | kern/stdlib/std.c:373-379 | a character has a digit value (0 to 35) exactly when it is a letter or a decimal digit, and -1 otherwise |
| `StdNumber.ValueSnoc` | kern/stdlib/std.c:389-390 | appending a digit to a digit string multiplies its value by the base and adds the digit |
| `StdNumber.Run` | kern/stdlib/std.c:372-392 | the digit loop stops at the first byte that is not a digit of the base, and every byte before it is one |
| `StdNumber.RunUnique` | kern/stdlib/std.c:372-392 | any n such that n digits are followed by a non-digit is the length of that run |
| `StdNumber.SkipSpace` | kern/stdlib/std.c:330-332 | white-space skipping stops at the first byte that is not white space |
| `StdNumber.AfterSign` | kern/stdlib/std.c:334-339 | a leading '-' or '+' is stepped over, and nothing else is |
| `StdNumber.BaseAt` | kern/stdlib/std.c:341-349 | "0x" or "0X" is skipped exactly when the base is 0 or 16, and then the base is 16; otherwise base 0 becomes 8 after a leading '0' and 10 elsewhere, and any other base is kept |
| `StdNumber.Prefix` | kern/stdlib/std.c:330-349 | the digits start at or after nptr, a base other than 0 and 16 is kept, base 0 becomes 8, 10 or 16 and base 16 stays 16 |
| `StdNumber.ScanPrefix` | kern/stdlib/std.c:330-349 | the white-space loop, the sign test and the base prefix compute the sign, base and first digit position of Prefix |
| `StdNumber.LongOf` | kern/stdlib/std.c:318-406 | a `strtol` result is a 32-bit `long`; `endptr` receives nptr exactly when no digit follows the prefix, and then the value is 0 |
| `StdNumber.ULongOf` | kern/stdlib/std.c:414-478 | a `strtoul` result is a 32-bit `unsigned long`; `endptr` receives nptr exactly when no digit follows the prefix, and then the value is 0 |
| `StdNumber.CutoffTest` | kern/stdlib/std.c:368-386 | the cutoff/cutlim test is true exactly when appending digit c would carry the value past the limit |
| `StdNumber.PastLimit` | kern/stdlib/std.c:385-386 | once past the limit, appending any digit stays past it, so `any = -1` is never wrong |
| `StdNumber.TrackStep` | kern/stdlib/std.c:381-391 | one turn of the digit loop keeps acc equal to the value of the digits read, and sets `any` to -1 exactly when that value passes the limit |
| `StdNumber.Accumulate` | kern/stdlib/std.c:372-392 | the loop stops after the run of digits of the base; `any` is 0 when there were none and -1 when their value passed the limit, and otherwise acc is their value |
| `StdNumber.NegateToLong` | kern/stdlib/std.c:397-398 | negating a magnitude up to 2^31 in `unsigned long` and returning it as a `long` gives the negated number |
| `StdNumber.Strtol` | kern/stdlib/std.c:318-406 | `strtol` returns and stores in `endptr` what LongOf specifies: the digits' value with its sign, LONG_MAX or LONG_MIN when that is out of range, and 0 with nptr when there are no digits |
| `StdNumber.LongFromScan` | kern/stdlib/std.c:394-403 | the final adjustment of `strtol` turns the outcome of the scan into LongOf |
| `StdNumber.Strtoul` | kern/stdlib/std.c:414-478 | `strtoul` returns and stores in `endptr` what ULongOf specifies: ULONG_MAX on overflow and the value modulo 2^32 after '-' |
| `StdNumber.Atoi` | kern/stdlib/std.c:308-310 | `atoi` is the value of `strtol` in base 10 |
| `StdNumber.Decimal` | kern/stdlib/std.c:372-392 | every natural number has a decimal spelling without a leading zero |
| `StdNumber.DigitsRun` | kern/stdlib/std.c:372-392 | a digit string followed by NUL is a run of exactly its length |
| `StdNumber.PlainHeader` | kern/stdlib/std.c:330-349 | a string starting with a digit (and no "0x" or octal prefix in play) is read from its first byte in the base given, or 10 for base 0 |
| `StdNumber.StrtolDecimal` | kern/stdlib/std.c:318-406 | parsing the decimal spelling of v gives v, clamped to LONG_MAX, and ends after the digits: print and parse round-trip |
| `StdNumber.StrtolDigits` | kern/stdlib/std.c:318-406 | parsing any decimal digit string gives its value clamped to LONG_MAX |
| `StdNumber.StrtolNegDecimal` | kern/stdlib/std.c:318-406 | parsing '-' and the decimal spelling of v gives -v, clamped to LONG_MIN |
| `StdNumber.StrtolNegDigits` | kern/stdlib/std.c:318-406 | parsing '-' and any decimal digit string gives minus its value, clamped to LONG_MIN |
| `StdNumber.ULongOfPlain` | kern/stdlib/std.c:414-478 | an unsigned parse of digits whose value fits gives that value and ends after them |
| `StdNumber.StrtoulDecimal` | kern/stdlib/std.c:414-478 | parsing the decimal spelling of v up to ULONG_MAX gives v back |
| `StdNumber.StrtoulDigits` | kern/stdlib/std.c:414-478 | parsing a decimal digit string whose value fits gives that value |
| `StdNumber.BareHexPrefix` | kern/stdlib/std.c:341-345 | "0x" followed by no hex digit parses as 0 and `endptr` receives nptr, not the address after the '0' |
| `Cpuid.Shr8` | kern/platform_x86/cpuid.c:114-117 | shifting right by whole bytes never increases the value |
| `Cpuid.Bytes` | kern/platform_x86/cpuid.c:113-118 | the four bytes a register contributes, least significant first |
| `Cpuid.Digits` | kern/platform_x86/cpuid.c:113-118 | the four bytes of a register, read as base-256 digits, give the register back |
| `Cpuid.BytesDetermine` | kern/platform_x86/cpuid.c:113-118 | two registers with the same four bytes are equal, so the conversion loses nothing |
| `Cpuid.BytesValue` | kern/platform_x86/cpuid.c:114-117 | byte k of the register is `(x >> 8k) & 0xFF` |
| `Cpuid.RegString` | kern/platform_x86/cpuid.c:110-121 | the 16 characters are eax, ebx, ecx and edx, four bytes each, least significant first |
| `Cpuid.Converted` | kern/platform_x86/cpuid.c:110-121 | after conversion, the 16 bytes at d are the register string, byte d + 16 is NUL and no other byte changes |
| `Cpuid.ConvertString` | kern/platform_x86/cpuid.c:110-121 | `cpuid_convert_string` returns string and leaves memory as Converted describes |
| `Cpuid.Converts` | kern/platform_x86/cpuid.c:110-121 | memory holding the register string at d, NUL after it and the old bytes elsewhere is exactly Converted |
| `Cpuid.Code` | kern/platform_x86/cpuid.h:9-22 | Unknown is -1 and the known manufacturers are 1 to 11 |
| `Cpuid.CodeInjective` | kern/platform_x86/cpuid.h:9-22 | no two manufacturers share a value |
| `Cpuid.Ascii` | kern/platform_x86/cpuid.c:38-93 | one byte per character of a tag |
| `Cpuid.SpellsNtel` | kern/platform_x86/cpuid.c:38 | the byte-swapped 'ntel' constant is the ECX whose bytes in memory order spell "ntel" |
| `Cpuid.SpellsCamd` | kern/platform_x86/cpuid.c:42 | the swapped 'cAMD' constant spells "cAMD" |
| `Cpuid.SpellsTer` | kern/platform_x86/cpuid.c:43 | the swapped 'ter!' constant spells "ter!" |
| `Cpuid.SpellsVia` | kern/platform_x86/cpuid.c:59 | the swapped 'VIA ' constant spells "VIA " |
| `Cpuid.SpellsAcpu` | kern/platform_x86/cpuid.c:63 | the swapped 'aCPU' constant spells "aCPU" |
| `Cpuid.SpellsMx86` | kern/platform_x86/cpuid.c:64 | the swapped 'Mx86' constant spells "Mx86" |
| `Cpuid.SpellsTead` | kern/platform_x86/cpuid.c:68 | the swapped 'tead' constant spells "tead" |
| `Cpuid.SpellsAuls` | kern/platform_x86/cpuid.c:73 | the swapped 'auls' constant spells "auls" |
| `Cpuid.SpellsIven` | kern/platform_x86/cpuid.c:77 | the swapped 'iven' constant spells "iven" |
| `Cpuid.SpellsUmc` | kern/platform_x86/cpuid.c:81 | the swapped 'UMC ' constant spells "UMC " |
| `Cpuid.SpellsSis` | kern/platform_x86/cpuid.c:85 | the swapped 'SiS ' constant spells "SiS " |
| `Cpuid.SpellsNsc` | kern/platform_x86/cpuid.c:89 | the swapped ' NSC' constant spells " NSC" |
| `Cpuid.SpellsRise` | kern/platform_x86/cpuid.c:93 | the swapped 'Rise' constant spells "Rise" |
| `Cpuid.OtherVendor` | kern/platform_x86/cpuid.c:47-99 | the inner switch never names Intel or AMD |
| `Cpuid.OtherVendorSpelled` | kern/platform_x86/cpuid.c:58-97 | the inner switch names a manufacturer exactly when ECX spells one of that manufacturer's vendor-string endings |
| `Cpuid.Stepping` | kern/platform_x86/cpuid.c:215 | the stepping is a 4-bit field |
| `Cpuid.Model` | kern/platform_x86/cpuid.c:201 | the model is a 4-bit field |
| `Cpuid.Family` | kern/platform_x86/cpuid.c:205 | the family is a 4-bit field |
| `Cpuid.ExtendedFamily` | kern/platform_x86/cpuid.c:207-212 | the extended family is an 8-bit field, and non-zero only when the family is 15 |
| `Cpuid.TypeBits` | kern/platform_x86/cpuid.c:219-235 | each CPU type stands for a 2-bit value |
| `Cpuid.TypeOfBits` | kern/platform_x86/cpuid.c:219-235 | the type chosen by the switch stands for bits 12-13 of EAX |
| `Cpuid.IntelSignatureRoundTrip` | kern/platform_x86/cpuid.c:201-235 | stepping, model, family, type and reserved reassemble to the signature: the Intel fields lose no bit |
| `Cpuid.AmdSignatureRoundTrip` | kern/platform_x86/cpuid.c:286-289 | stepping, model, family and reserved reassemble to the signature |
| `Cpuid.LeafBrand` | kern/platform_x86/cpuid.c:241-249 | the brand string read from the extended leaves fills the 50-byte field |
| `Cpuid.LeafBrandLayout` | kern/platform_x86/cpuid.c:241-249 | the brand string is leaves 0x80000002, 0x80000003 and 0x80000004 converted in order, then zero bytes |
| `Cpuid.BrandTable` | kern/platform_x86/cpuid.c:126-183 | each brand table has 0x18 entries |
| `Cpuid.IntelBrand` | kern/platform_x86/cpuid.c:237-266 | the Intel brand string always fills the 50-byte field |
| `Cpuid.TablesFit` | kern/platform_x86/cpuid.c:126-183 | every table entry is shorter than 50 bytes, so `strncpy` of 50 bytes terminates it |
| `Cpuid.IntelBrandFromTable` | kern/platform_x86/cpuid.c:250-266 | without the brand leaves, a brand index from 1 to 0x17 gives the table entry padded with zeros, and any other index leaves the string empty |
| `Cpuid.DetectIntel` | kern/platform_x86/cpuid.c:188-269 | the Intel path reports Intel with an Intel record and a 50-byte brand string |
| `Cpuid.DetectAmd` | kern/platform_x86/cpuid.c:274-320 | the AMD path reports AMD with an AMD record and a 50-byte brand string |
| `Cpuid.AmdBrand` | kern/platform_x86/cpuid.c:299-308 | the loop over leaves 0x80000002 to 0x80000004 builds the brand string of the leaves |
| `Cpuid.DetectCpu` | kern/platform_x86/cpuid.c:31-103 | the generic record is used exactly for manufacturers other than Intel and AMD, and its name has 17 bytes |
| `Cpuid.Vendor` | kern/platform_x86/cpuid.c:32-34 | the vendor string of leaf 0 has 12 bytes |
| `Cpuid.DetectIntelVendor` | kern/platform_x86/cpuid.c:37-39 | the CPU is Intel exactly when the vendor string ends in "ntel" |
| `Cpuid.DetectAmdVendor` | kern/platform_x86/cpuid.c:42-44 | the CPU is AMD exactly when the vendor string ends in "cAMD" or "ter!" |
| `Cpuid.GenericName` | kern/platform_x86/cpuid.c:53-55 | an unrecognised CPU's name is the vendor string (EBX, EDX, ECX) followed by zero bytes |
| `Cpuid.IntelBrandFromLeaves` | kern/platform_x86/cpuid.c:241-249 | with leaf 0x80000004 available, the Intel brand string is the three leaves converted in order |
| `Cpuid.AmdBrandFromLeaves` | kern/platform_x86/cpuid.c:292-308 | with leaf 0x80000002 available the AMD brand string is the three leaves converted, and otherwise it stays zero |
| `Cpuid.AmdTempDiode` | kern/platform_x86/cpuid.c:310-317 | the AMD record has a temperature diode exactly when leaf 0x80000007 exists and bit 0 of its EDX is set |
| `Cpuid.IntelFields` | kern/platform_x86/cpuid.c:197-235 | the Intel record's fields reassemble to EAX of leaf 1, and its brand is the low byte of EBX |
| `Cpuid.AmdFields` | kern/platform_x86/cpuid.c:283-289 | the AMD record's fields reassemble to EAX of leaf 1 |
| `HeapAlign.Align` | kern/vm/kheap.c:24-37 | `ALIGN` yields a multiple of 16 at least 16 and less than 32 bytes past the payload, and stores that distance as the shift |
| `HeapAlign.Unalign` | kern/vm/kheap.c:40-48 | `UNALIGN` subtracts a stored value below 32 in 32-bit arithmetic and leaves the pointer alone for any other value |
| `HeapAlign.UnalignAlign` | kern/vm/kheap.c:24-48 | `UNALIGN` after `ALIGN` gives the payload address back |
| `HeapAlign.ShiftByteInPayload` | kern/vm/kheap.c:35-36 | the byte that holds the shift lies inside the record's payload, never in its header |
| `HeapAlign.Reserve` | kern/vm/kheap.c:577-582 | the reserved size is the request plus 32, wrapping modulo 2^32 |
| `HeapAlign.RequestFits` | kern/vm/kheap.c:577-582 | without wrap-around, the requested bytes after the aligned pointer end inside the reserved size |
| `HeapAlign.ZeroOnlyOnWrap` | kern/vm/kheap.c:577-594 | a zero-byte request reserves 32 bytes; the size-zero refusal fires only for the request 2^32 - 32 |
| `HeapAlign.WrappedReserveShrinks` | kern/vm/kheap.c:577-582 | a request in the top 32 values reserves less than it asks for, and less than 32 bytes |
| `HeapAlign.PagesForLeast` | kern/vm/kheap.c:522-535 | the page count is at least 16 and is the least count that holds the size and both headers |
| `HeapAlign.PagesForAsWritten` | kern/vm/kheap.c:519-535 | as written, a major block gets at least 16 pages |
| `HeapAlign.PagesForAsWrittenAgrees` | kern/vm/kheap.c:522-535 | when the 32-bit sum does not wrap, the page count as written is the least count that fits |
| `HeapAlign.PagesForWrapShort` | kern/vm/kheap.c:522-535 | when `size + 48` wraps, the block gets 16 pages, fewer bytes than the record placed in it needs; `malloc(0xFFFFFFC0)` gets there |
| `HeapLayout.WeightAppend` | kern/vm/kheap.c:61-63 | the bytes taken by two runs of records add up |
| `HeapLayout.OrderedApart` | kern/vm/kheap.c:71-78 | records in list order lie at increasing addresses without overlap |
| `HeapLayout.WeightBound` | kern/vm/kheap.c:61-63 | ordered records take no more bytes than the span they occupy |
| `HeapLayout.UsageWithin` | kern/vm/kheap.c:61-63 | a major's `usage` never exceeds its `size` |
| `HeapLayout.FirstFitFrom` | kern/vm/kheap.c:703-811 | the search returns the first gap from k on with room for the record, or -1 when no such gap exists |
| `HeapLayout.EmptyFirstFit` | kern/vm/kheap.c:676-701 | in a major with no records, the record goes right after the major header |
| `HeapLayout.Insert` | kern/vm/kheap.c:703-807 | linking a record in at position k keeps the records before and after it in order |
| `HeapLayout.Delete` | kern/vm/kheap.c:909-912 | unlinking the record at k keeps the other records in order |
| `HeapLayout.WeightInsert` | kern/vm/kheap.c:687-793 | linking in a record adds its size and a header to the bytes taken |
| `HeapLayout.WeightDelete` | kern/vm/kheap.c:906 | unlinking a record removes its size and a header from the bytes taken |
| `HeapLayout.OrderedInsert` | kern/vm/kheap.c:703-807 | a record placed in a gap between its neighbours keeps the list in address order |
| `HeapLayout.OrderedDelete` | kern/vm/kheap.c:909-912 | unlinking a record keeps the list in address order |
| `HeapLayout.PlaceWellFormed` | kern/vm/kheap.c:676-807 | placing a record in a gap with room keeps the major well formed and takes `size + 24` of its free bytes |
| `HeapLayout.RemoveWellFormed` | kern/vm/kheap.c:902-912 | freeing a record keeps the major well formed and gives back its size and header |
| `HeapLayout.PtrSpan` | kern/vm/kheap.c:691-693 | every user pointer lies at least 64 bytes into its major and less than 32 bytes past its end |
| `HeapLayout.PtrInjective` | kern/vm/kheap.c:691-693 | two different records of a major have different user pointers |
| `HeapLayout.LivePlace` | kern/vm/kheap.c:676-807 | placing a record adds exactly its new pointer, not already live, to the major's live pointers |
| `HeapLayout.PlacedPtrFresh` | kern/vm/kheap.c:676-807 | the pointer of a newly placed record is not already live |
| `HeapLayout.LiveInsert` | kern/vm/kheap.c:676-807 | placing a record adds its pointer to the live pointers |
| `HeapLayout.LiveRemove` | kern/vm/kheap.c:902-912 | freeing a record removes exactly its pointer from the live pointers |
| `HeapLayout.RemovedLive` | kern/vm/kheap.c:902-912 | every pointer live after a free was live before and is not the freed one |
| `HeapLayout.KeptLive` | kern/vm/kheap.c:902-912 | every other live pointer stays live after a free |
| `HeapLayout.PtrDistinct` | kern/vm/kheap.c:691-693 | the records of a major have pairwise different pointers |
| `HeapLayout.WeightSetReq` | kern/vm/kheap.c:1007-1008 | changing a record's `req_size` leaves the bytes taken alone |
| `HeapLayout.SetReqWellFormed` | kern/vm/kheap.c:1007-1008 | shrinking in place keeps the major well formed with the same free bytes |
| `HeapLayout.SetReqPtrs` | kern/vm/kheap.c:1007-1010 | shrinking in place keeps every pointer, so `krealloc` returns the same pointer |
| `HeapLayout.LiveSpan` | kern/vm/kheap.c:691-693 | every live pointer lies in the window of its major |
| `HeapLayout.ApartPtrs` | kern/vm/kheap.c:518-564 | majors on distinct frames share no live pointer |
| `HeapLayout.LiveAllAdd` | kern/vm/kheap.c:676-807 | adding a pointer to one major adds it to the heap's live pointers |
| `HeapLayout.LiveAllDrop` | kern/vm/kheap.c:902-912 | dropping a pointer that no other major has removes it from the heap's live pointers |
| `HeapLayout.LiveAllAppendEmpty` | kern/vm/kheap.c:668-673 | a new empty major adds no live pointer |
| `HeapLayout.LiveAllRemoveEmpty` | kern/vm/kheap.c:915-922 | unlinking an empty major removes no live pointer |
| `HeapState.IndexOfFrame` | kern/vm/kheap.c:82 | the major that `l_bestBet` names is found on the list at a position holding that major |
| `HeapState.TotalUpdate` | kern/vm/kheap.c:86-87 | replacing one major changes a heap-wide total by the difference of that major's amounts |
| `HeapState.TotalAppend` | kern/vm/kheap.c:556 | appending a major adds its amount to a heap-wide total |
| `HeapState.TotalDelete` | kern/vm/kheap.c:920 | unlinking a major removes its amount from a heap-wide total |
| `HeapState.FindMinor` | kern/vm/kheap.c:864-866 | the search over a major's records finds a record whose pointer is p, or establishes that none from k on has it |
| `HeapState.Locate` | kern/vm/kheap.c:860-866 | a pointer is located exactly when it is live, and then at a record whose pointer it is |
| `HeapState.NotInMajor` | kern/vm/kheap.c:864-866 | a pointer that no record of a major has is not live in it |
| `HeapState.LiveAllPrefix` | kern/vm/kheap.c:81 | a pointer is live on the list exactly when it is live in the majors before the last or in the last |
| `HeapState.ReqAt` | kern/vm/kheap.c:1005 | the `req_size` reported for a record's pointer is that record's |
| `HeapState.ReqKeptRemove` | kern/vm/kheap.c:902-912 | freeing one record leaves every other live pointer live with its `req_size` |
| `HeapState.ReqKeptDelete` | kern/vm/kheap.c:915-922 | releasing an empty major leaves every live pointer live with its `req_size` |
| `HeapState.ReqsKeptRemove` | kern/vm/kheap.c:902-912 | the same for all other live pointers at once |
| `HeapState.ReqsKeptDelete` | kern/vm/kheap.c:915-922 | the same for all live pointers at once |
| `HeapState.InvUpdate` | kern/vm/kheap.c:676-812 | replacing a major by a well-formed major on the same frames keeps the heap invariant |
| `HeapState.InvAppend` | kern/vm/kheap.c:518-564 | a new major on a run of free frames that are then marked and mapped keeps the invariant when appended |
| `HeapState.ApartFromFree` | kern/vm/kheap.c:412-451 | a major on frames that were free shares no frame with an existing major |
| `HeapState.InvDelete` | kern/vm/kheap.c:915-922 | unlinking a major whose frames are then cleared keeps the invariant |
| `HeapState.KeptFrames` | kern/vm/kheap.c:487-513 | clearing one major's frames leaves every other major's frames marked and mapped |
| `HeapState.PtrOwned` | kern/vm/kheap.c:902 | a live pointer belongs to exactly one major |
| `HeapState.LocateUnique` | kern/vm/kheap.c:864 | the pointer of record (i, k) is located at (i, k): the record header below a pointer is unique |
| `HeapState.LiveAllInHeap` | kern/vm/kheap.c:691-693 | every live pointer lies inside the heap's virtual range |
| `HeapState.PlaceStep` | kern/vm/kheap.c:676-807 | placing a record keeps the invariant, leaves pages and `l_allocated` alone and adds its size to `l_inuse` |
| `HeapState.PlacePtr` | kern/vm/kheap.c:676-807 | the new record's pointer was not live, becomes the only new live pointer, reports the requested size and is 16-aligned and 32-bit |
| `HeapState.RemoveStep` | kern/vm/kheap.c:902-912 | freeing a record keeps the invariant, takes its size off `l_inuse` and removes exactly its pointer |
| `HeapState.DeleteStep` | kern/vm/kheap.c:915-922 | releasing an empty major keeps the invariant, takes its pages and size off the totals and keeps the live pointers |
| `HeapState.AppendStep` | kern/vm/kheap.c:553-556 | a new empty major adds its pages and size to the totals and no live pointer |
| `HeapState.SetReqStep` | kern/vm/kheap.c:1007-1008 | shrinking in place keeps the invariant, the totals and the live pointers |
| `HeapState.SetReqPtr` | kern/vm/kheap.c:1007-1010 | after shrinking in place the pointer is unchanged, still live and reports the new size |
| `HeapState.LiveAllSame` | kern/vm/kheap.c:1007-1008 | replacing a major by one with the same live pointers keeps the heap's live pointers |
| `HeapState.BetOkUpdate` | kern/vm/kheap.c:629-646 | `l_bestBet` still names a major on the list after a major changes in place |
| `HeapState.BetOkAppend` | kern/vm/kheap.c:669-673 | `l_bestBet` still names a listed major after a major is appended |
| `HeapState.BetOkDelete` | kern/vm/kheap.c:916-919 | `l_bestBet` still names a listed major after another major is unlinked |
| `KernelHeap.OverrunIffLowByte` | kern/vm/kheap.c:866-880 | a bad tag is counted as a possible overrun exactly when its low byte is 0x42, the low byte of `LIBALLOC_MAGIC` |
| `KernelHeap.PageAfterNullAsWritten` | kern/vm/kheap.c:212-217 | when the re-allocation fails, `ptr += 0x1000; ptr &= 0xFFFFF000` turns NULL into 0x1000, which is returned as memory |
| `KernelHeap.PageAfterBounds` | kern/vm/kheap.c:212-217 | the corrected rounding: NULL exactly for NULL, and otherwise the first page boundary strictly above the pointer, at most a page above it |
| `KernelHeap.PhysOf` | kern/vm/kheap.c:224-227 | for a mapped heap page, the physical address keeps the offset within the page and its page part is the frame the page is mapped to |
| `KernelHeap.FindGap` | kern/vm/kheap.c:703-811 | the record search inside one major yields the first gap, in list order, holding the bytes needed, or -1 |
| `KernelHeap.FirstMajorFrom` | kern/vm/kheap.c:639-833 | the first major from a position on whose free bytes cover the need and that has a gap of the needed size, or -1; every major skipped before it lacks the free bytes or any such gap |
| `KernelHeap.WalkChoice` | kern/vm/kheap.c:639-833 | the major a record of the need goes into: one with the free bytes and a gap that fit, or the position past the last major exactly when no major has room |
| `KernelHeap.WalkFindsChoice` | kern/vm/kheap.c:625-833 | the major the walk finds from where it starts, with its restart at the root, is the one `WalkChoice` names, or the position past the last major when none has room |
| `KernelHeap.SearchMajors` | kern/vm/kheap.c:629-833 | the walk starts at `l_bestBet` when there is one and restarts at the first major when nothing fits from there; the chosen major has room and its gap is the first that fits, -1 means no major has room, and the largest free size seen is the new best |
| `KernelHeap.CallocShortGrant` | kern/vm/kheap.c:938-949 | 0x10001 objects of 0x10000 bytes ask for only 0x10000 bytes: the product wraps in 32 bits |
| `KernelHeap.CheckedRequest` | kern/vm/kheap.c:938-949 | the calloc request is present exactly when the product of count and size fits in 32 bits, and then it is that product |
| `KernelHeap.Heap.Install` | kern/vm/kheap.c:158-183 | a heap with no majors, no best bet, no mapped page, zeroed counters and every heap frame free, over the given physical allocator |
| `KernelHeap.Heap.AllocatorAlloc` | kern/vm/kheap.c:412-482 | the run of pages starts at the first frame of the lowest free run that long; those frames become used and mapped, other mappings keep their frames, and no other changes; 0 with nothing changed when there is no such run. With the corrected `vm_allocate_phys`, each page maps to the address of its own physical frame, no two pages share a frame, and exactly those frames become marked in the physical bitmap |
| `KernelHeap.Heap.MapRun` | kern/vm/kheap.c:465-476 | marks exactly the frames of the run and maps every page of it to a page-aligned address; each page gets a frame that was free before, no two pages the same one, and exactly those frames become marked in the physical bitmap |
| `KernelHeap.Heap.MapPage` | kern/vm/kheap.c:466-471 | corrected, with the marking `vm_allocate_phys`: one page of the loop marks exactly that page in the heap's bitmap and takes the lowest free physical frame, which it marks, or none when all are set; the page's address is page-aligned |
| `KernelHeap.Heap.AllocatorFree` | kern/vm/kheap.c:487-513 | the page count drops by the pages freed; the frames cleared are a prefix of the run, stopping at the first page that is not mapped, and no other frame changes |
| `KernelHeap.Heap.AllocateNewPage` | kern/vm/kheap.c:518-564 | a new empty major over the lowest free run of `PagesFor(size)` pages, whose free bytes hold the request plus a record header, with the totals updated; on failure a warning and nothing else changes, and there is no run that long |
| `KernelHeap.Heap.PlaceAt` | kern/vm/kheap.c:648-808 | writing a record into a gap: that major gets the record at that position, the pointer is aligned and new, it reports the request, and its tag is `LIBALLOC_MAGIC` |
| `KernelHeap.Heap.LinkNewMajor` | kern/vm/kheap.c:668-673 | a new empty major with room for the request goes on the end of the list and the others stay as they were; on failure only the warning count changes |
| `KernelHeap.Heap.Malloc` | kern/vm/kheap.c:569-846 | a reserved size of 0 or exhaustion gives NULL with the heap unchanged and one warning, and exhaustion means no major has room and no run of free frames is long enough; otherwise the record lands in the first gap that fits of the major the walk picks (`WalkChoice`: the first with room from `l_bestBet` on when the best bet has more free bytes than the need and such a major follows it, else the first with room from the root), or in a new major at the end when none has room, and the pointer is new, aligned and reports the request |
| `KernelHeap.Heap.WalkAndPlace` | kern/vm/kheap.c:629-833 | the walk over existing majors followed by placement or growth: the record goes into the major `WalkChoice` picks from the list and best bet as they were, or into a new last major; the same outcome as `Malloc` once the list is not empty |
| `KernelHeap.Heap.WalkStart` | kern/vm/kheap.c:625-636 | the walk starts at `l_bestBet` exactly when there is one and its free bytes exceed the need, else at the root; `bestSize` is the best bet's free bytes, or 0 without one |
| `KernelHeap.Heap.KeepBest` | kern/vm/kheap.c:641-646 | the major with the most free bytes the walk saw, when it beat the best bet's, becomes `l_bestBet`; the list, the counters and the tags stay as they were |
| `KernelHeap.NeedAsWritten` | kern/vm/kheap.c:649 | as written: the room a gap is tested for is the reserved size plus a minor header, in 32-bit arithmetic; it is exact unless the sum reaches 2^32, and then it is less than a header |
| `KernelHeap.NeedWrapPlacesOversized` | kern/vm/kheap.c:632-808 | as written, a request from 0xFFFFFFC8 to 0xFFFFFFDF needs less than a header, gets a 16-page major, and passes the room test of that major's empty gap, although its reserved size exceeds the whole major |
| `KernelHeap.WrappedNeedRefused` | kern/vm/kheap.c:632-808 | with the need kept exact, such a request asks for more pages than the heap has, finds no run, and fits no major the heap can hold |
| `KernelHeap.Heap.PlaceOrGrow` | kern/vm/kheap.c:648-832 | with a fitting major found, the record goes in its first fitting gap of that very major; with none, the heap grows by one major and the record goes into it |
| `KernelHeap.Heap.GrowAndPlace` | kern/vm/kheap.c:813-832 | when no major has room, a new major is linked at the end and the record placed at its start; NULL with nothing changed when there is no run of free frames |
| `KernelHeap.Heap.SetBestBet` | kern/vm/kheap.c:643-646 | `l_bestBet` becomes the chosen major |
| `KernelHeap.Heap.PlaceFound` | kern/vm/kheap.c:676-808 | the record goes in the first gap that fits of the major found, and of no other, with its tag set |
| `KernelHeap.Heap.PlaceNew` | kern/vm/kheap.c:676-701 | the record goes at the start of the new last major, which becomes the best bet when asked |
| `KernelHeap.Heap.Free` | kern/vm/kheap.c:848-936 | NULL gives a warning and changes nothing; a bad tag counts an error, and a possible overrun when its low byte is the magic's, and changes nothing; otherwise the record is located, unlinked, its tag becomes `LIBALLOC_DEAD`, its major released when empty, and every other live pointer keeps its request |
| `KernelHeap.Heap.BadTag` | kern/vm/kheap.c:866-896 | one more error, and one more possible overrun exactly when the tag has the magic's low byte |
| `KernelHeap.Heap.FreeRecord` | kern/vm/kheap.c:898-933 | the record at that position leaves the heap and the live set, its tag turns dead and every other live pointer keeps its request |
| `KernelHeap.Heap.RemoveRecord` | kern/vm/kheap.c:898-933 | unlinking the record and tidying its major: only that pointer leaves the live set and the use total drops by its size |
| `KernelHeap.Heap.Tidy` | kern/vm/kheap.c:914-933 | an emptied major is released and the best bet moved off it when it was the best bet, or updated when the major now has more free bytes; live pointers are untouched |
| `KernelHeap.Heap.UnlinkRecord` | kern/vm/kheap.c:902-912 | the record is taken out of its major's list and nothing else in the heap changes |
| `KernelHeap.Heap.ReleaseMajor` | kern/vm/kheap.c:915-922 | the empty major leaves the list, its frames are cleared and no others, and the best bet is dropped when it was that major |
| `KernelHeap.Heap.Realloc` | kern/vm/kheap.c:951-1021 | size 0 frees the pointer and returns NULL; NULL is a plain allocation; a bad tag counts an error and returns NULL; a size not larger than the request keeps the record in place with the new request; otherwise a new record reporting the size replaces the old one, which is freed also when the new allocation fails |
| `KernelHeap.Heap.ShrinkRequest` | kern/vm/kheap.c:1005-1011 | only the request of that record changes, to the new size |
| `KernelHeap.Heap.Move` | kern/vm/kheap.c:1016-1020 | allocation of the new size followed by freeing the old pointer |
| `KernelHeap.Heap.Allocate` | kern/vm/kheap.c:569-846 | `Malloc` seen from outside: a new live pointer reporting the request, or NULL with the majors unchanged |
| `KernelHeap.Heap.CallocAsWritten` | kern/vm/kheap.c:938-949 | as written: the request is the product of count and size modulo 2^32, and a new pointer reports that wrapped value |
| `KernelHeap.Heap.Calloc` | kern/vm/kheap.c:938-949 | a count and size whose product overflows give NULL and change nothing; otherwise a new pointer reporting the product, or NULL |
| `KernelHeap.Heap.SmartAlloc` | kern/vm/kheap.c:193-230 | unaligned: a new pointer reporting the size; aligned: a page boundary inside a new record, with the size fitting in what the record reports unless size + 0x1000 wraps; the physical address is looked up in the page mapping for any aligned result and for a non-NULL unaligned one |
| `KernelHeap.Heap.AlignedAlloc` | kern/vm/kheap.c:207-221 | the aligned branch: a page boundary at most a page into a new record, with the size inside what the record reports |
| `KernelHeap.Heap.Realign` | kern/vm/kheap.c:212-217 | a misaligned record is re-allocated 0x1000 bytes larger and the pointer moved to the next page boundary inside it |
| `Placement.Round16` | kern/vm/kheap.c:264-267 | a size is rounded up to a multiple of 16, unchanged when already one, and wraps to 0 above 0xFFFFFFF0 |
| `Placement.PageUp` | kern/vm/kheap.c:346-352 | the placement moved up to a page boundary: unchanged when on one, and otherwise less than a page above it |
| `Placement.DumbPhys` | kern/vm/kheap.c:309-311 | the physical address of a higher-half kernel address is the address less 0xC0000000 |
| `Placement.BumpAllocator.constructor` | kern/vm/kheap.c:81-91 | a dumb allocator with no placement set and nothing allocated |
| `Placement.BumpAllocator.Kmalloc` | kern/vm/kmalloc.c:28-53 | in smart mode NULL and nothing changes; otherwise the placement (set to the kernel end first) is returned and both the placement and the byte count grow by the size rounded to 16 |
| `Placement.BumpAllocator.Bump` | kern/vm/kheap.c:258-275 | the dumb step: the address handed out is the placement (on a page boundary when aligned), and the placement and byte count grow by the rounded size in 32-bit arithmetic |
| `Placement.BumpAllocator.Kfree` | kern/vm/kmalloc.c:59-65 | nothing changes |
| `Placement.BumpAllocator.GetBytes` | kern/vm/kheap.c:374-376 | the byte count is the total of the rounded sizes handed out, modulo 2^32 |
| `Placement.AppendKeepsChain` | kern/vm/kheap.c:269-273 | each bump starts where the previous block ended, and the byte count is the running total |
| `Placement.AddressIsOffset` | kern/vm/kheap.c:269-273 | without aligned requests or wrap-around, block m starts at the first block's address plus the sizes before it |
| `Placement.TotalPrefix` | kern/vm/kheap.c:273 | the running total of a prefix never exceeds the whole and grows by each block's size |
| `Placement.BlocksDisjoint` | kern/vm/kheap.c:269-273 | without aligned requests or wrap-around, an earlier block ends at or before a later one begins |
| `Placement.MonotonePrefix` | kern/vm/kheap.c:273 | the running total never decreases |
| `Placement.NextAfter` | kern/vm/kheap.c:346-355 | the next block starts where the previous ended, or less than a page later when aligned |
| `Placement.BlocksOrdered` | kern/vm/kheap.c:346-358 | with aligned requests and no wrap-around, the blocks handed out never overlap and come in address order |
| `KernelMemory.Memory.constructor` | kern/vm/kheap.c:81-91 | the entry points over a dumb allocator and a heap |
| `KernelMemory.Memory.Kmalloc` | kern/vm/kheap.c:254-279 | smart mode: a new heap pointer reporting the size, or NULL with the live set unchanged, and the dumb state kept; dumb mode: the bump step, with the heap kept |
| `KernelMemory.Memory.KmallocP` | kern/vm/kheap.c:287-315 | `kmalloc` together with the physical address: in smart mode the heap's page mapping of a non-NULL result, in dumb mode the address less 0xC0000000 |
| `KernelMemory.Memory.KmallocAp` | kern/vm/kheap.c:322-369 | a page-aligned result: in smart mode inside a new heap record, in dumb mode the placement moved to a page boundary; the physical address as for `kmalloc_p` |

## Left out

- Heap memory contents. The bytes the heap hands out are not stored, so three writes are not modelled: the `memclr` in `kheap_smart_alloc` (kern/vm/kheap.c:199, 214, 219), the `memset` in `lalloc_calloc` (kern/vm/kheap.c:946) and the payload copy in `lalloc_realloc` (kern/vm/kheap.c:1016-1017). That also leaves out the writes through NULL these make when the allocation fails.
- The tag word below a pointer is a parameter of `Free` and `Realloc`, because the headers' bytes are not stored. The requires says that a live pointer read as `MEMB` is one the heap handed out. A stray pointer that happens to carry `MEMB` is not modelled.
- The pointer `kheap_smart_alloc` returns on its aligned path lies inside a record, not at the record's start. Freeing it reads a bad tag, which the model treats like any other bad tag.
- The page table is an abstract page map from heap page to physical frame. `platform_pm_map` and `platform_pm_virt_to_phys` are read through it. `PhysOf` answers 0 for a page the heap did not map, because the page-table code is not part of this model.
- KernelHeap.Heap.Malloc: the contract says where a record goes, but not where `l_bestBet` ends up after the walk. Only that it names a major of the list, or none.
- KernelHeap.Heap.SmartAlloc: the contract speaks of live pointers and requests; the zero-fill of the result is left out, as above. On the unaligned path the physical address is stated only for a non-NULL result, because on failure the source returns before writing `*phys` (kern/vm/kheap.c:197-204).
- HeapAlign.Reserve: `req_size + 32` wraps as in the source. A request within 32 of 2^32 gets a record shorter than it asks for (`HeapAlign.WrappedReserveShrinks`), and the model keeps that behaviour with no corrected version.
- The statistics counters `l_warningCount`, `l_errorCount` and `l_possibleOverruns` are unbounded integers. `KDEBUG` output and the lock functions, which do nothing, are left out.
- `KernelMemory.Memory` takes an installed heap in both modes. The kernel installs the heap only when it switches to the smart mapper, and that switch (`kern/vm/vm.c`) is not part of this model.
- Scheduler.Scheduler.TakeFrame: with no free frame, `scheduler_new_process` and `scheduler_new_tcb` call `set_frame(0xFFFFFFFF)`, a write past the bitmap, and go on to build a structure at the wrapped address (kern/scheduler/scheduler.c:109-113, 139-143). The model answers -1, and its callers return NULL with nothing changed.
- Scheduler.Scheduler.AllocTcb: the new TCB's `next` is NULL, which `scheduler_new_tcb` never writes (kern/scheduler/scheduler.c:150-151); the stale value the source leaves is modelled only by `Scheduler.AppendedAsWritten` (see "## Findings").
- Scheduler.Scheduler.AllocPcb: the new PCB's `thread` is NULL before `scheduler_new_tcb` reads it, which the source does not ensure (kern/scheduler/scheduler.c:120-127); the stale head is modelled only by `Scheduler.StaleThreadJoinsOtherList`.
- Scheduler.Scheduler.NewTcb: the append is stated for the corrected TCB with a NULL `next`; as written, the list can close into a cycle (`Scheduler.StaleNextCycles`).
- Scheduler.Scheduler.NewProcess: the one-thread list is stated for the corrected PCB and TCB; as written, the walk starts from a stale `thread` and may append the new thread to another process's list (`Scheduler.StaleThreadJoinsOtherList`).
- Scheduler.IdsDistinct: the control blocks are modelled as memory of their own at each structure address. The scheduler's calls to `vm_allocate_phys` and `platform_pm_map` (kern/scheduler/scheduler.c:116-117, 146-147) are not modelled. With `vm_allocate_phys` as written every structure page shares one physical frame, so a new `tcb->thread_id` overwrites an older `pcb->process_id`, and the distinct IDs hold only with the corrected allocator.
- HeapState.Inv: records and majors are disjoint as heap addresses; that they are disjoint in physical memory as well rests on the corrected `vm_allocate_phys` that `KernelHeap.Heap.MapRun` uses.
- KernelHeap.Heap.MapRun: uses the corrected allocator, which marks each frame; the frames it marks are never released, because `vm_deallocate_phys` does nothing (kern/vm/physical.c:110-112).
- Physical.PhysicalAllocator.ReservePhys: requires the rounded limit to lie inside the bitmap. `vm_reserve_phys` has no such bound and writes past the buffer for a larger address (kern/vm/physical.c:119-130), which is not modelled.
- Interrupt.InterruptTable.Init: installs the table through the corrected `Install`, so the IDTR limit it states is 2047; `platform_int_init` passes 2048 (kern/platform_x86/interrupt.c:72), which `x86_idt_install` stores unchanged, as `Interrupt.InterruptTable.InstallAsWritten` models.
- Inline assembly:
  - `memcpy` and `memclr` are given the effect of their `rep movs` and `rep stos` sequences; their size arithmetic is modelled;
  - `lidt`, `sti`, `cli` and `pushf` are records and parameters;
  - the `cpuid` instruction is a function parameter from leaf to registers.
- Console, port and MSR access, locks and atomics, the stack guard, the real-mode stub copy, boot argument parsing and logging are device I/O or boot plumbing, and are not modelled.

## Findings

| source | as written | input that shows it | evidently intended | confidence | as-written member | corrected member |
|---|---|---|---|---|---|---|
| kern/includes/stdlib.h:81 | `DIV_ROUND_UP(n, d)` is `(n + d/2) / d`, which rounds to the nearest integer | n = 1, d = 4 gives 0 | the least r with r·d ≥ n | not executed | `CType.DivRoundUpIsNearest`, `CType.DivRoundUpCounterexample` | `CType.DivCeil`, `CType.DivCeilLeast` |
| kern/vm/kheap.c:420-446 | the run search skips a word equal to 0xFFFFFFFF without resetting its run count | words 0x7FFFFFFF, 0xFFFFFFFF, 0xFFFFFFFE, two pages: answers frame 31, and frame 32 is in use | a full word ends any run | not executed | `Bitmap.RunStraddlesFullWord` | `Bitmap.FindRun`, `Bitmap.RunsBefore` |
| kern/vm/physical.c:94-95 | the bitmap gets `INDEX_FROM_BIT(nframes)` bytes, but the scans read that many 32-bit words (likewise kern/vm/kheap.c:171-172 and kern/scheduler/scheduler.c:100-101) | any nframes ≥ 32: the scans read four times the buffer | a buffer of `INDEX_FROM_BIT(nframes)` words | not executed | `Bitmap.BufferTooSmall` | `Bitmap.WordsScanned`, `Physical.PhysicalAllocator.Init` |
| kern/scheduler/scheduler.c:93-102 | `scheduler_init` stores the frame count in a local that shadows the file-scope `nframes`, which stays 0 | any call: every `find_free_frame` then answers -1 | the file-scope count set to 0xC000 | not executed | `Scheduler.Scheduler.InitAsWritten`, `Scheduler.NoFrameAsWritten` | `Scheduler.Scheduler.Init`, `Scheduler.PrefixFirstClear` |
| kern/platform_x86/interrupt.c:123-133 | the IDTR limit is the table size, 2048 | a vector whose descriptor would start at offset 2048: the processor admits it, one byte past the table | limit = size − 1 (Intel SDM Vol. 3A, section 6.10) | not executed | `Interrupt.InterruptTable.InstallAsWritten`, `Interrupt.InstallAsWrittenOverreach` | `Interrupt.InterruptTable.Install`, `Interrupt.InstalledLimitExact`, `Interrupt.InterruptTable.Init` |
| kern/stdlib/std.c:528-625 | the short path copies `(num & 0x3F) / 4` dwords, and the block count wraps for large num; `memmove` (kern/stdlib/std.c:666-671) copies through `memcpy` and inherits both | num = 64: nothing is copied, by `memcpy` or `memmove` | all num bytes copied | not executed | `StdMemory.MemcpyAsWritten`, `StdMemory.MemcpySixtyFour`, `StdMemory.MemcpyShortfall`, `StdMemory.MemmoveAsWritten`, `StdMemory.MemmoveSixtyFour` | `StdMemory.Memcpy`, `StdMemory.Memmove` |
| kern/vm/kheap.c:212-217 | when `krealloc` fails, `ptr += 0x1000; ptr &= 0xFFFFF000` turns NULL into 0x1000 | an aligned request the heap cannot satisfy on re-allocation: 0x1000 is returned | NULL passed through | not executed | `KernelHeap.PageAfterNullAsWritten` | `KernelHeap.PageAfterBounds`, `KernelHeap.Heap.Realign` |
| kern/vm/kheap.c:938-949 | `real_size = nobj * size` wraps modulo 2^32 | nobj = 0x10001, size = 0x10000 gives a 0x10000-byte record | NULL when the product overflows | not executed | `KernelHeap.CallocShortGrant`, `KernelHeap.Heap.CallocAsWritten` | `KernelHeap.CheckedRequest`, `KernelHeap.Heap.Calloc` |
| kern/vm/kheap.c:522-535 | `allocate_new_page` counts pages from `size + 48` in 32-bit arithmetic, which wraps | `malloc(0xFFFFFFC0)` reserves 0xFFFFFFE0 bytes and gets a 16-page major far smaller than that | a page count that covers the reserved size | not executed | `HeapAlign.PagesForAsWritten`, `HeapAlign.PagesForWrapShort` | `HeapAlign.PagesFor`, `HeapAlign.PagesForLeast` |
| kern/vm/kheap.c:632-808 | the room `lalloc_malloc` tests a gap for is `size + sizeof(struct allocator_minor)` in 32-bit arithmetic, which wraps | `malloc(0xFFFFFFD0)` on an empty heap: a record reserving almost 4 GiB is placed in a 16-page major | NULL, since no major can hold the record | not executed | `KernelHeap.NeedAsWritten`, `KernelHeap.NeedWrapPlacesOversized` | `KernelHeap.Heap.Malloc`, `KernelHeap.WrappedNeedRefused` |
| kern/vm/physical.c:101-105 | `vm_allocate_phys` returns the lowest free frame without marking it | two calls in a row, as the page loop of `allocator_alloc` (kern/vm/kheap.c:465-476) and the scheduler make them: both return the same frame, so every page of a heap run, and every structure page, shares one physical frame | each frame marked as it is handed out | not executed | `Physical.PhysicalAllocator.AllocatePhys`, `Physical.AllocateTwiceSame` | `Physical.PhysicalAllocator.AllocatePhysMarked`, `Physical.MarkedAllocationsDiffer`, `KernelHeap.Heap.MapRun` |
| kern/scheduler/scheduler.c:108-166 | `tcb->next` is never written, and `scheduler_new_process` hands its PCB to `scheduler_new_tcb` before writing `pcb->thread`; both sit on freshly mapped pages that are never cleared | a thread list at TCB_START and a new TCB at TCB_START + 0x1000 whose page holds TCB_START at the `next` offset: the two point at each other and the next append never ends its walk | both fields NULL before the walk | not executed | `Scheduler.AppendedAsWritten`, `Scheduler.StaleNextCycles`, `Scheduler.StaleThreadJoinsOtherList` | `Scheduler.Scheduler.AllocTcb`, `Scheduler.Scheduler.AllocPcb`, `Scheduler.AppendExtendsList` |
