# Coeleo OS kernel: verified model

This project models five stateful parts of the kernel in Dafny and proves what every run of them keeps. Each module models one source file, or one protocol of it. Where the source updates an object in place, the model has a class with the same fields and loops, proved against a function on values; the lemmas are then about those functions and about runs of them.

| part | modules | main results |
|---|---|---|
| xHCI rings | `XhciRing`, `XhciRuns`, `XhciEvents`, `XhciMailbox`, `XhciDelivery` | the command and transfer rings hand over what was asked for, in order, for every interleaving of dword stores and fetches; the exact limits up to which nothing is torn (255) and nothing is lost (254); event ring FIFO and its exact limit (256), which the dequeue register enforces; the mailbox as a bounded map; what becomes of each event from its post to `take_xfer`, over every interleaving |
| process images | `Pmm`, `Vmm`, `Elf`, `ElfWidth`, `Argv`, `Images` | bitmap and counter of the frame allocator; what a loaded image shows at every address; W^X; frames pairwise distinct and given back exactly; nothing in use touched; the initial stack read back word by word; over any run of loads, argument writes and unloads the live images never share a frame, and each shows its own file with, on its stack, its own arguments |
| pipes and descriptors | `Pipe`, `Fd` | in every reachable state the end counts are the descriptors over all tables; byte streams are FIFO per use of a pipe; exact meaning of end of file |
| installed disk | `Blk`, `FatVolume`, `VolumeRuns`, `Crc`, `CrcRemainder`, `Part`, `Gpt`, `Label`, `Install` | the cached byte volume refines a flat array over every run; GPT writer and reader agree, and every field the writer leaves on the disk is read back; the label survives any volume traffic, device errors included; checksums hold; CRC-32 is the polynomial remainder and detects every four-byte burst; the two-call confirmation |
| smaller pieces | `Path`, `Rtc`, `Kbd`, `Win` | canonical working directory; civil time to Unix time for all years; the lock-free key ring under every interleaving; the shared event queue loses, duplicates and misroutes nothing |

`Bytes` holds bytes, little-endian integers and splices; `Rings` holds the ring arithmetic that `Pipe`, `Win` and the xHCI modules share.

## How the model is built

- Integers are unbounded unless the source's width matters; where it does, the width is written out (`% U64_LIMIT` in the partition scan, the casts of `Seek` and of the volume size in `Apply`, the file offsets in `ElfWidth`, `i64` seek offsets, `u8` end counts, 32-bit CRC registers, `u32` dwords of a TRB parameter).
- A device may fail at any transfer (`if *` in `Blk.Table`); the ghost counter `faults` records it, and contracts say what holds when none failed.
- `map_user_in` is modelled with an arbitrary number (0 to 3) of table frames and arbitrary contents written to the L4 and to table frames, so the image's correctness rests on the frames being distinct. The ghost counter `misses` records allocations that found no frame.
- The xHCI controller follows sections 4.9.2, 4.9.3, 4.9.4 and 6.4.4.1 of the xHCI specification. It fetches the control word first and then the other dwords one at a time, between any two driver stores. For event rings, posting and popping are atomic steps, in any order; `Pump` runs while the controller goes on posting.
- In the key ring a party sees its own index exactly and may see any older value of the other's index that is not older than one it has seen, as Acquire and Release allow. The bytes are plain memory; that no slot is read and stored to at once is proved.
- FAT is an arbitrary client of the byte volume: any sequence of reads, writes and seeks.

## Where the code falls short

These are proved as equivalences: the property holds exactly on the stated condition.

- `XhciRuns.FinishesIff`: with 255 TRBs outstanding (`enqueue_ep` has no limit of its own) the driver rewrites the Link TRB with the other cycle bit before a controller standing at it has followed it, and the controller stops for good. Up to 254 outstanding it always finishes. `XhciRuns.InOrderIff`: from 256 outstanding on, a TRB can be read half-overwritten.
- `Elf.Load`: a file whose header does not parse, or that has no program header table, costs the frame of the L4. Every other refusal restores the pool exactly.
- `Rtc.CollidesIff`: `decode` accepts any day up to 31 in any month; an accepted date shares its day number with a later one exactly when its month has no such day. `Rtc.DecodedCollides` gives the register contents.
- `FatVolume.SeekExact`: a seek target is cast to `u64` before it is clamped, so it lands on the clamped target exactly when the target is below 2^64. `FatVolume.SeekWraps` is an input where it fails: on a volume of 2^64 - 1 bytes (`kernel/src/fs/mod.rs:56` saturates a partition's size there), the end plus one is the start. `FatVolume.SeekSafeIff`: no seek can fail so exactly on volumes of at most 2^63 bytes. `VolumeRuns.Drive` carries the condition over whole runs.
- `Install.SizesAgree`: `apply` formats the volume in the size it is later mounted with exactly up to 2^55 - 1 usable sectors: its product wraps in 64 bits where the mount's saturates (`kernel/src/fs/mod.rs:56`). `Install.SizesDiffer` is the first disk where they differ.
- `ElfWidth.CopiesMeaning`: `map_segment` adds in 64 bits before it compares with the file's length. It panics on a slice exactly when the end of the first page's part of the file wraps past 2^64 to a place within the file; on every other header it accepts and refuses as the unbounded sums of `Elf.FillPage` do. `ElfWidth.PanickingHeader` is a header that panics with any file.

## Model

| member | source | states |
|---|---|---|
| XhciRing.Ring.constructor | kernel/src/bus/xhci/host.rs:451-460 | a fresh ring is the protocol's initial driver state: zeroed slots, a Link TRB with the ring's own address, type 6, TC and cycle bit 0, index 0, cycle state 1 |
| XhciRing.Ring.PutTrb | kernel/src/bus/xhci/host.rs:538-547 | the four dwords are stored in order, control word last, and nothing else; the first two join to the parameter |
| XhciRing.Ring.Bump | kernel/src/bus/xhci/host.rs:440-449 | index and cycle state; at the wrap, and only there, slot 255 becomes a Link TRB whose address dwords join to the ring's own address, of type 6, with TC and the cycle state of the lap |
| XhciRing.Ring.Enqueue | kernel/src/bus/xhci/host.rs:427-438 | the dwords stored and the new driver state are those of one protocol enqueue carried to its end; the slot holds the parameter, the status and every bit of the control word asked for but the cycle bit |
| XhciRing.LinkMeaning | kernel/src/bus/xhci/host.rs:440-449 | the Link TRB holds the ring's address; a controller that reads it goes to slot 0 and toggles its cycle state |
| XhciRing.SlotFetch | kernel/src/bus/xhci/host.rs:434-449 | what the controller may fetch from a slot is a completely stored TRB, and the next one in order |
| XhciRing.InvNext | kernel/src/bus/xhci/host.rs:427-460 | every driver store and every controller step keeps the ring invariant while at most 255 TRBs are outstanding |
| XhciRuns.RunInv | kernel/src/bus/xhci/host.rs:427-460 | the invariant holds after every interleaving, over any number of wraps |
| XhciRuns.ConsumesInOrder | kernel/src/bus/xhci/host.rs:427-460 | the TRBs consumed hold what the callers asked for, whole, in order, once each, and no link ever leads out of the ring |
| XhciRuns.EnqueuesAsked | kernel/src/bus/xhci/host.rs:427-438 | in every run, with any limit, the TRBs enqueued hold the parameters, status words and control words asked for |
| XhciRuns.InOrderIff | kernel/src/bus/xhci/host.rs:434-449 | that holds for all runs exactly up to 255 outstanding; from 256 on a torn read exists |
| XhciRuns.NotStuck | kernel/src/bus/xhci/host.rs:434-449 | an idle driver with up to 254 outstanding never leaves the controller without a TRB it may fetch |
| XhciRuns.Drain | kernel/src/bus/xhci/host.rs:434-449 | the controller alone then consumes everything outstanding in finitely many steps |
| XhciRuns.RewrittenLink | kernel/src/bus/xhci/host.rs:440-449 | with 255 outstanding a controller at the Link TRB cannot take another step |
| XhciRuns.FinishesIff | kernel/src/bus/xhci/host.rs:434-449 | every TRB asked for can still be consumed, in every idle state of every run, exactly up to 254 outstanding |
| XhciEvents.DecodeEncode | kernel/src/bus/xhci/host.rs:406-410 | the shifts and masks of `pop_evt` invert the event layouts of sections 6.4.2.1 and 6.4.2.2 |
| XhciEvents.DecodeBytes | kernel/src/bus/xhci/host.rs:406-410 | which bits of which byte become type, code, slot, endpoint and residue |
| XhciEvents.HeadMeaning | kernel/src/bus/xhci/host.rs:399-405 | the slot at the driver's index shows its cycle state exactly when it holds an unread event, the oldest |
| XhciEvents.PopMeaning | kernel/src/bus/xhci/host.rs:399-425 | `pop_evt` yields the oldest unread event, and nothing exactly when there is none |
| XhciEvents.RunInv | kernel/src/bus/xhci/host.rs:399-425 | over every run, any number of wraps included, the ring invariant holds |
| XhciEvents.FaithfulIff | kernel/src/bus/xhci/host.rs:399-425 | events come out in order, once each, in all runs exactly when at most 256 may be unread |
| XhciEvents.RegisterBounds | kernel/src/bus/xhci/host.rs:411-417 | ERDP as written bounds the unread events of a controller that respects it to 255 |
| XhciEvents.EventRing.PopEvt | kernel/src/bus/xhci/host.rs:399-425 | the method's answer and new state are those of the specification function; ERDP is the slot just popped |
| XhciMailbox.StashRefines | kernel/src/bus/xhci/host.rs:346-362 | `stash_xfer` is insertion into a map of at most sixteen keys; no two cells share a key |
| XhciMailbox.TakeRefines | kernel/src/bus/xhci/host.rs:364-371 | `take_xfer` answers and removes that key's entry of the map |
| XhciMailbox.FreeMeaning | kernel/src/bus/xhci/host.rs:356-361 | an empty cell exists exactly when fewer than sixteen keys are held |
| XhciMailbox.RunRefines | kernel/src/bus/xhci/host.rs:346-371 | after every run the cells are the map, and `take_xfer` answers what the map holds |
| XhciMailbox.Fate | kernel/src/bus/xhci/host.rs:346-371 | until its key is used again a stashed event is yielded, unless all sixteen cells held other keys when it came |
| XhciMailbox.Host.StashXfer | kernel/src/bus/xhci/host.rs:346-362 | the two scanning loops compute the specification function on the cells |
| XhciMailbox.Host.TakeXfer | kernel/src/bus/xhci/host.rs:364-371 | the loop takes the first cell with the key, or nothing |
| XhciMailbox.Host.Pump | kernel/src/bus/xhci/host.rs:333-344 | while the controller goes on posting, every event is dispatched, oldest first, and at the end none is unread |
| XhciDelivery.Delivered | kernel/src/bus/xhci/host.rs:333-425 | over every run of posts, turns of `pump` and takes: a popped transfer event is what `take_xfer` answers for its key until the key is taken from or a newer transfer for it is popped, unless all sixteen cells held other keys when it was popped |
| XhciDelivery.CommandKept | kernel/src/bus/xhci/host.rs:333-382 | a popped command completion is kept until it is taken or a newer one is popped |
| XhciDelivery.WhenPopped | kernel/src/bus/xhci/host.rs:399-425 | the event posted as the nth is popped as the nth, at one turn of the run |
| XhciDelivery.PumpedOut | kernel/src/bus/xhci/host.rs:333-344 | as many turns as there are unread events pop everything posted |
| Pmm.SettingOne | kernel/src/mem/pmm.rs:116-119 | or-ing a frame's mask sets that bit of the byte and no other |
| Pmm.ClearingOne | kernel/src/mem/pmm.rs:121-124 | clearing with the complement clears that bit and no other |
| Pmm.Allocator.AllocContiguous | kernel/src/mem/pmm.rs:53-78 | takes the lowest run of n free frames, and fails exactly when n is 0 or no run exists; the counter stays the number of clear bits |
| Pmm.Allocator.Alloc | kernel/src/mem/pmm.rs:49-51 | takes the lowest free frame, and fails exactly when none is free |
| Pmm.Allocator.FreeContiguous | kernel/src/mem/pmm.rs:84-102 | frees exactly the frames of the range below the cap; a double free changes neither bits nor counter |
| Pmm.Allocator.Init | kernel/src/mem/pmm.rs:23-47 | a frame is free exactly when it is below the cap and wholly inside one usable entry, overlaps included |
| Vmm.Machine.NewUserL4 | kernel/src/mem/vmm.rs:108-118 | an address space with an empty user half on a frame that was free |
| Vmm.Machine.MapUserIn | kernel/src/mem/vmm.rs:139-171 | maps exactly one page with the given flags or changes no mapping; new table frames are handed back also on failure; memory changes only in tables |
| Elf.HeldTables | kernel/src/task/elfload.rs:130-133 | table frames handed back stay distinct from all frames of the image |
| Elf.ViewPush | kernel/src/task/elfload.rs:130-134 | mapping a page adds exactly that page to what the process sees, whatever is written to tables |
| Elf.FillPage | kernel/src/task/elfload.rs:110-128 | a page gets the file's bytes where the segment has any and zero elsewhere, and fails exactly when the file is too short for that page |
| Elf.FitsInFile | kernel/src/task/elfload.rs:113-122 | all pages fit exactly when the segment's file part lies within the file |
| ElfWidth.CopiesMeaning | kernel/src/task/elfload.rs:105-126 | in 64 bits the copies of a segment panic exactly when the end of the first part wraps into the file, and otherwise succeed exactly when the file part lies in the file |
| ElfWidth.SliceMeaning | kernel/src/task/elfload.rs:113-126 | without that wrap the slices taken are those the unbounded sums give |
| ElfWidth.PanickingHeader | kernel/src/task/elfload.rs:113-126 | one byte at offset 2^64 - 1 panics with any file |
| Elf.MapSegment | kernel/src/task/elfload.rs:87-138 | success adds exactly the segment's pages, and means its checks pass on unmapped pages; failure without starvation means they do not |
| Elf.MapStack | kernel/src/task/elfload.rs:140-157 | adds exactly the sixteen zero, writable, non-executable stack pages |
| Elf.Fail | kernel/src/task/elfload.rs:73-85 | the free set grows by exactly the page frames, the table frames and the L4 |
| Elf.HeldRestores | kernel/src/task/elfload.rs:73-85 | giving an image's frames back restores the free set it was built from; the frames are pairwise distinct and none was free |
| Elf.Load | kernel/src/task/elfload.rs:25-64 | success shows the segments and the stack and nothing else; refusal without starvation means the file is not loadable; refusal restores the free set exactly unless it is one of the two early returns; those two cost at most one frame; memory and address spaces in use before are untouched |
| Elf.LoadableIff | kernel/src/task/elfload.rs:25-105 | a file is loadable exactly when it is an x86-64 ET_EXEC with program headers, without PT_DYNAMIC, with a PT_LOAD; every PT_LOAD has p_filesz at most p_memsz, not both bits of 3 in p_flags, an end within the user half and its file part in the file; and no page belongs to two of them or to one and the stack |
| Elf.SegmentPermissions | kernel/src/task/elfload.rs:97-98 | on every page of a PT_LOAD segment, executable exactly when p_flags & 1 is set and writable exactly when p_flags & 2 is |
| Elf.CoversMeaning | kernel/src/task/elfload.rs:107-110 | the pages of a segment and of the stack, by their addresses |
| Elf.LoadSegments | kernel/src/task/elfload.rs:33-63 | once the headers are known every refusal restores the free set exactly |
| Elf.Unload | kernel/src/task/elfload.rs:66-71 | the free set grows by exactly the image's frames, and the page table in use is no longer the image's |
| Elf.SegmentReads | kernel/src/task/elfload.rs:107-136 | on every page of a PT_LOAD segment a read gives the file's byte below p_filesz and zero everywhere else, padding included |
| Elf.SegmentCovered | kernel/src/task/elfload.rs:107-109 | every address from p_vaddr to p_memsz lies on one of the segment's pages |
| Elf.MappedPages | kernel/src/task/elfload.rs:36-57 | exactly the pages of PT_LOAD segments and of the stack are mapped |
| Elf.WriteXorExecute | kernel/src/task/elfload.rs:97-101 | no page is both writable and executable; the stack is writable and zero |
| Argv.WriteUser | kernel/src/task/elfload.rs:224-237 | across page boundaries, exactly the given bytes change and no frame outside the page list; succeeds exactly when every byte's page is mapped |
| Argv.WriteStrings | kernel/src/task/elfload.rs:192-201 | the NUL-terminated strings lie downwards from the stack top, each at the address recorded for it |
| Argv.WriteArgv | kernel/src/task/elfload.rs:183-222 | on a loaded image succeeds exactly for 1 to 16 strings of 1 to 255 bytes, and writes the strings and the table, and no frame that is not the image's |
| Argv.ArgvReads | kernel/src/task/elfload.rs:202-221 | from rsp: argc, argc pointers each leading to its string and a NUL, two null words |
| Argv.ArgvKeeps | kernel/src/task/elfload.rs:183-222 | every byte outside the strings and the table is unchanged |
| Argv.Regions | kernel/src/task/elfload.rs:192-208 | the strings lie one below the other from 0x8000_0000 down, the first highest; the table lies below them as high as a 16-byte aligned rsp allows |
| Argv.LoadedList | kernel/src/task/elfload.rs:239-246 | an image from `load` maps the whole stack, one frame per page |
| Argv.SameAsView | kernel/src/task/elfload.rs:239-246 | reading through the page list is reading the address space |
| Images.LoadThenUnload | kernel/src/task/elfload.rs:25-85 | free set and free counter are as before, unless the file is one of the two kinds that keep the L4 |
| Images.LoadWithArgs | kernel/src/task/elfload.rs:25-222 | after a load the arguments go in exactly for 1 to 16 strings of 1 to 255 bytes, and read back from rsp |
| Images.AllStayIntact | kernel/src/task/elfload.rs:25-85 | a change confined to frames no live image owns shows in none of them, whether they have arguments or not |
| Images.WorldArgs | kernel/src/task/elfload.rs:183-222 | arguments written into one image show in it exactly as written over what it showed, and in no other image, arguments there or not |
| Images.PerformArgs | kernel/src/task/elfload.rs:183-222 | the same of `write_argv` itself, refused argument lists included |
| Images.PerformLoad | kernel/src/task/elfload.rs:25-64 | a load changes what no live image shows, and fails on a loadable file only when memory ran out |
| Images.RunImages | kernel/src/task/elfload.rs:25-246 | over every run of loads, argument writes and unloads each frame is in exactly one place (free, lost, one live image), the live images are those the operations give, and each shows exactly its file and the argument lists written to it |
| Images.LiveShows | kernel/src/task/elfload.rs:25-246 | in every such state each live image has its file's pages, flags and, off the stack, bytes; the arguments last written read back word by word |
| Images.LiveReads | kernel/src/task/elfload.rs:25-246 | in every such state a read in a PT_LOAD segment of a live image gives its file's byte below p_filesz and zero elsewhere |
| Argv.WroteView | kernel/src/task/elfload.rs:224-237 | a write through the page list changes in the address space exactly the bytes written |
| Argv.ArgsOffStack | kernel/src/task/elfload.rs:183-222 | arguments change no page, no flag and no byte off the stack |
| Images.LiveApart | kernel/src/task/elfload.rs:25-85 | two live images share no frame with each other or with the pool |
| Rings.WindowDrop | kernel/src/task/pipe.rs:110-115 | moving the head by n drops the n oldest bytes, across the wrap |
| Rings.WindowStore | kernel/src/task/pipe.rs:137-141 | a byte stored at the tail is appended, across the wrap |
| Pipe.PipeRing.Read | kernel/src/task/pipe.rs:92-117 | hands over the oldest min(len, held) bytes, or end of file, or would block, as the pipe's state says |
| Pipe.PipeRing.Write | kernel/src/task/pipe.rs:119-143 | accepts min(len, room) bytes behind the newest, or is refused, or would block |
| Pipe.ReadMeaning | kernel/src/task/pipe.rs:92-117 | a read hands over exactly the smaller of what is asked and what waits, from the oldest on, and leaves the rest; with nothing waiting it says end of file or blocks, by the writers |
| Pipe.WriteMeaning | kernel/src/task/pipe.rs:119-143 | a write is refused without readers, blocks exactly at 4096 bytes held, and otherwise adds exactly the smaller of its bytes and the room |
| Pipe.Pipes.Alloc | kernel/src/task/pipe.rs:30-46 | takes the lowest unused pipe, empty and with one end of each kind |
| Pipe.Pipes.CloneEnd | kernel/src/task/pipe.rs:48-60 | one end more, refused for unknown or unused pipes and at 255 |
| Pipe.Pipes.DropEnd | kernel/src/task/pipe.rs:62-78 | one end fewer, saturating; the last one empties the pipe |
| Fd.DropKeeps | kernel/src/task/fd.rs:148-152 | dropping a held descriptor meets a used pipe with a nonzero count, and counts stay the descriptors |
| Fd.CloneKeeps | kernel/src/task/fd.rs:94-119 | a cloned descriptor is counted; a failed clone changes nothing |
| Fd.InheritKeeps | kernel/src/task/fd.rs:121-137 | counts stay the descriptors through inheritance, also when the second clone fails |
| Fd.InheritMeaning | kernel/src/task/fd.rs:121-137 | a spawn succeeds exactly when each slot asked for is open, no directory and, for a pipe end, of a used pipe with fewer than 255 such ends, the first clone counted; the child then has the parent's slots, or the standard ones, at 0 and 1, standard error at 2 and nothing else; a failing spawn leaves the pipes as they were |
| Fd.CloseKeeps | kernel/src/task/fd.rs:139-145 | closing a whole table keeps the counts and leaves it empty |
| Fd.PipeCallUndone | kernel/src/task/fd.rs:441-484 | a failing `sys_pipe` changes neither the pipes nor the table, whichever way it fails |
| Fd.FreshPipe | kernel/src/task/fd.rs:441-458 | an id handed out is named by no descriptor of any table before, and by exactly two empty slots' new ones after |
| Fd.PipeCallKeeps | kernel/src/task/fd.rs:441-484 | counts stay the descriptors through `sys_pipe` |
| Fd.PipeCallMeaning | kernel/src/task/fd.rs:441-484 | `sys_pipe` succeeds exactly with an unused pipe, two empty slots and a successful copy; the read end takes the lowest empty slot and the write end the next |
| Fd.NextKeeps | kernel/src/task/fd.rs:79-152 | every call keeps counts and streams |
| Fd.RunInv | kernel/src/task/pipe.rs:30-143 | in every reachable state counts are the descriptors over all tables, and returned bytes followed by held bytes are the accepted bytes |
| Fd.EofMeaning | kernel/src/task/pipe.rs:92-131 | on reachable states a pipe descriptor names a used pipe; Eof exactly when nothing is held and no table has a write end; writes are refused exactly when no table has a read end |
| Fd.FdTable.Alloc | kernel/src/task/fd.rs:69-77 | the lowest empty slot, or an error exactly when none is empty |
| Fd.FdTable.Take | kernel/src/task/fd.rs:64-67 | empties the slot and hands over what it held |
| Fd.FdTable.Replace | kernel/src/task/fd.rs:79-92 | the slot holds the new descriptor and no other slot changes; what it held, or what does not fit, is dropped |
| Fd.FdTable.CloneSlot | kernel/src/task/fd.rs:94-119 | succeeds exactly on an open slot that is no directory and no pipe end without room, hands over what the slot holds, and adds one end at most |
| Fd.FdTable.InheritFrom | kernel/src/task/fd.rs:121-137 | succeeds exactly when the slots asked for can be cloned; the child holds the parent's `stdin` slot at 0, its `stdout` slot at 1, standard descriptors elsewhere up to 2, and nothing more; pipes as in the specification function |
| Fd.FdTable.CloseAll | kernel/src/task/fd.rs:139-145 | every slot emptied and dropped in order |
| Fd.SysCloseFd | kernel/src/task/fd.rs:427-439 | descriptors 0 to 2 stay; any other open one is dropped |
| Fd.SysPipeFds | kernel/src/task/fd.rs:441-484 | a bad buffer is refused before anything changes; otherwise the table, the pipes and the answer of the specification function, all failure paths included |
| Blk.Table.ReadBlocks | kernel/src/fs/blk.rs:123-137 | success delivers the sectors; failure is a fault, a buffer that is not whole sectors, or sectors the disk does not have |
| Blk.Table.WriteBlocks | kernel/src/fs/blk.rs:139-153 | success stores those sectors only; failure may have changed those sectors at most; an empty buffer, part of a sector or sectors the disk does not have are refused |
| Blk.Table.Flush | kernel/src/fs/blk.rs:155-163 | changes no sector, and fails only on a fault or for a disk that is not there |
| FatVolume.FatDisk.Read | kernel/src/fs/fat_disk.rs:34-55 | transfers exactly min(len, size - pos) bytes of the device at pos and keeps the cache coherent; pos stays within the volume on every path |
| FatVolume.FatDisk.Write | kernel/src/fs/fat_disk.rs:58-86 | stores exactly that many bytes and no other byte of any disk, also in a partial last sector; on every path no sector outside the volume changes |
| FatVolume.FatDisk.Seek | kernel/src/fs/fat_disk.rs:94-115 | refuses exactly negative targets, without moving; otherwise it lands on the clamped target exactly when the target is below 2^64 |
| FatVolume.SeekExact | kernel/src/fs/fat_disk.rs:94-115 | the same of the three arms as a function, and where a target of 2^64 or more lands |
| FatVolume.SeekArms | kernel/src/fs/fat_disk.rs:94-115 | from the start, from the cursor and from the end, clamped, while nothing wraps |
| FatVolume.SeekSafeIff | kernel/src/fs/fat_disk.rs:94-115 | every seek that is not refused is right exactly on volumes of at most 2^63 bytes |
| FatVolume.SeekWraps | kernel/src/fs/fat_disk.rs:94-115 | on a volume of 2^64 - 1 bytes the end plus one is the start |
| FatVolume.StoredSector | kernel/src/fs/fat_disk.rs:64-83 | patching a sector and writing it back changes exactly the bytes written |
| FatVolume.WrittenAppend | kernel/src/fs/fat_disk.rs:58-86 | sector by sector writes add up to one write |
| VolumeRuns.Perform | kernel/src/fs/fat_disk.rs:33-115 | one operation answers as the flat array does exactly when its seek target, if any, is below 2^64, and then leaves what the flat array holds |
| VolumeRuns.Drive | kernel/src/fs/fat_disk.rs:33-115 | a run of operations answers as the flat array does exactly when all its seeks fit, and then leaves what it holds; no sector outside the volume changes |
| VolumeRuns.Persist | kernel/src/fs/fat_disk.rs:33-115 | a client that goes on after device errors changes no sector outside the volume either |
| VolumeRuns.ViewMeaning | kernel/src/fs/fat_disk.rs:33-55 | byte k of the flat array is byte k mod 512 of sector k / 512 of the volume |
| Crc.UpdateLoop | kernel/src/fs/gpt.rs:165-177 | the nested loops compute the CRC register function |
| Crc.UpdateStreams | kernel/src/fs/gpt.rs:165-177 | updating by a and then b is updating by a + b |
| Crc.StepsInjective | kernel/src/fs/gpt.rs:168-174 | bit steps never map two registers to one |
| Crc.UpdateFolds | kernel/src/fs/gpt.rs:166-175 | consecutive bytes act as one exclusive or with their little-endian value followed by the bit steps |
| Crc.BurstDetected | kernel/src/fs/gpt.rs:161-177 | messages of one length that differ only within four consecutive bytes have different checksums |
| CrcRemainder.ChecksumIff | kernel/src/fs/gpt.rs:161-177 | a number is the checksum of a message exactly when its complement is the remainder, over the field of two elements, of the message with its first 32 bits complemented by the generator 0x1_DB71_0641 |
| Gpt.LastUsable | kernel/src/fs/gpt.rs:14-20 | none exactly below 64 MiB; otherwise 33 sectors stay behind it and it lies past the start of the ESP |
| Gpt.FillHeader | kernel/src/fs/gpt.rs:74-98 | the sector is the 92 header bytes around their own CRC, then zeros; `Label.SectorFields` reads every field back |
| Gpt.PartitionEntry | kernel/src/fs/gpt.rs:100-119 | the 128 bytes of one ESP entry |
| Gpt.WriteProtectiveMbr | kernel/src/fs/gpt.rs:56-72 | sector 0 becomes the protective MBR and nothing else changes |
| Gpt.WriteArray | kernel/src/fs/gpt.rs:121-130 | 32 sectors hold the entry and zeros |
| Gpt.ArrayCrc32 | kernel/src/fs/gpt.rs:132-142 | the CRC built sector by sector is that of the 16384 bytes |
| Gpt.ArrayCrcOnDisk | kernel/src/fs/gpt.rs:121-142 | it is the CRC of the bytes the array takes on the disk |
| Gpt.HeaderCrcHolds | kernel/src/fs/gpt.rs:83-98 | the stored header CRC is the CRC of the 92 bytes with the field zeroed |
| Gpt.HeaderRead | kernel/src/fs/gpt.rs:84-95 | what the reader takes from a written header is what was put in |
| Gpt.EntryRead | kernel/src/fs/gpt.rs:100-119 | what the reader takes from a written entry is its sector range |
| Gpt.WriteEsp | kernel/src/fs/gpt.rs:22-54 | success leaves the complete label with correct checksums on a disk of at least 64 MiB, and fails only on a fault or an unfit disk |
| Label.LabelMeaning | kernel/src/fs/gpt.rs:22-130 | on every labelled disk, from the disk's own bytes: both headers name their own sector, the other one, sectors 34 to n - 34, the disk GUID and an array that holds the one entry; signature, revision, sizes and all four checksums; and the protective MBR's slot |
| Label.SectorFields | kernel/src/fs/gpt.rs:74-98 | every field of a header the writer made, at its offset |
| Label.FirstSectorFields | kernel/src/fs/gpt.rs:100-130 | every field of the entry the writer made, and zeros behind it |
| Label.MbrRead | kernel/src/fs/gpt.rs:56-72 | type, start and size of the protective slot, and zeros elsewhere |
| Gpt.InstalledVolume | kernel/src/fs/part.rs:21-72 | a labelled disk scans as exactly one volume from sector 2048 to the last usable sector |
| Gpt.LabelOutsideVolume | kernel/src/fs/gpt.rs:28-53 | MBR, headers and arrays lie outside the volume and stay byte-identical under traffic confined to it |
| Part.Volumes | kernel/src/fs/part.rs:21-31 | while the device succeeds the scan finds exactly the volumes the disk's label defines |
| Part.GptVolumes | kernel/src/fs/part.rs:33-72 | entries up to 128, each on its sector, until a sector is missing |
| Part.HeaderMeaning | kernel/src/fs/part.rs:21-50 | which sector makes a disk a GPT disk, and where its header says the entries are |
| Part.EntryPlace | kernel/src/fs/part.rs:44-60 | entry i is read at byte 512 * partition_lba + i * entry_size of the disk |
| Part.EntryMeaning | kernel/src/fs/part.rs:57-70 | which types count, and first sector and length of what they yield |
| Part.MbrVolumes | kernel/src/fs/part.rs:74-97 | the FAT and ESP slots of a signed MBR, in order |
| Part.ReadSlot | kernel/src/fs/part.rs:80-95 | one slot's bytes, parsed |
| Part.MbrMeaning | kernel/src/fs/part.rs:74-97 | under a valid signature the scan finds as many volumes as there are FAT32 and ESP slots with a start and a length, each at the place given by the used slots before it; without one it finds none |
| Install.PendingMeaning | kernel/src/fs/install.rs:84-102 | an index is pending exactly when a call armed it and every later call was refused |
| Install.AppliesOnSecondCall | kernel/src/fs/install.rs:84-102 | `apply` runs exactly on an acceptable call whose last acceptable predecessor armed the same index |
| Install.TargetMeaning | kernel/src/fs/install.rs:148-160 | a target is a disk of at least 64 MiB with the payload at hand |
| Install.Apply | kernel/src/fs/install.rs:104-146 | once written the label stays complete and correct through any formatting, copying and unmounting traffic, device errors included; success means the label is there, and the only errors met are those ignored; when no device fails it is written; a refused target is untouched |
| Install.UseVolume | kernel/src/fs/install.rs:114-145 | any client of the volume leaves the label intact, also one that goes on when its errors no longer count; it fails exactly when an error counted |
| Install.PartBytesExact | kernel/src/fs/install.rs:114 | the 64-bit volume size is never more than the usable space, and exact up to 2^55 - 1 sectors |
| Install.SizesAgree | kernel/src/fs/install.rs:114 | it is the size the mount computes, saturating, exactly up to the same bound |
| Install.SizesDiffer | kernel/src/fs/install.rs:114 | one sector more, and the installer formats a volume of no bytes |
| Install.InstalledScan | kernel/src/fs/install.rs:111-126 | the scanner finds one volume, the usable space, and mounts it in the size `apply` used exactly up to 2^55 - 1 sectors |
| Install.ApplyAndScan | kernel/src/fs/install.rs:104-146 | after a successful `apply`, a scan during which no device fails returns exactly one volume, from sector 2048 |
| Install.Installer.Step | kernel/src/fs/install.rs:84-102 | nothing is written unless the call confirms an armed index |
| Path.ResolvePath | kernel/src/fs/mod.rs:366-393 | the loop computes the specification function |
| Path.ResolveCanonical | kernel/src/fs/mod.rs:366-393 | from a canonical directory every argument leads to an absolute path without empty, "." or ".." components |
| Path.ResolveFixed | kernel/src/fs/mod.rs:366-393 | resolving a result again, from anywhere, changes nothing |
| Path.ResolveTwice | kernel/src/fs/mod.rs:366-393 | going to a and then to a relative b is going to a/b, from any directory |
| Path.ResolveDown | kernel/src/fs/mod.rs:366-393 | a name is appended behind a slash |
| Path.ResolveUp | kernel/src/fs/mod.rs:379-381 | ".." undoes a step down and stays at the root |
| Path.ResolveStay | kernel/src/fs/mod.rs:375-379 | "." and the empty argument stay |
| Path.ResolveAbsolute | kernel/src/fs/mod.rs:366-368 | an absolute argument is read from the root |
| Path.RelMeaning | kernel/src/fs/mod.rs:362-364 | the relative form of a canonical path loses only the leading slash |
| Path.CwdCanonical | kernel/src/fs/mod.rs:159-171 | the working directory is canonical in every reachable state |
| Path.WorkingDir.Chdir | kernel/src/fs/mod.rs:159-171 | moves to the resolved path exactly when a file system is mounted and the path is the root or opens as a directory |
| Rtc.DaysCounted | kernel/src/boot/rtc.rs:97-105 | the arithmetic is the number of days counted year by year and month by month from 1970, for all years |
| Rtc.Epoch | kernel/src/boot/rtc.rs:97-105 | day 0 is 1970-01-01 |
| Rtc.NextDay | kernel/src/boot/rtc.rs:97-105 | from every valid date to its successor the day number grows by one |
| Rtc.DaysGrow | kernel/src/boot/rtc.rs:97-105 | from a date that exists, every later accepted date has a larger day number |
| Rtc.TimestampGrows | kernel/src/boot/rtc.rs:95-114 | Unix time is strictly monotone in civil time and defined exactly from 1970 on |
| Rtc.NextSecond | kernel/src/boot/rtc.rs:95-114 | Unix time is 0 at the start of 1970 and grows by one with every civil second |
| Rtc.KnownDays | kernel/src/boot/rtc.rs:97-105 | day numbers around the 29 February of 2000, of 2024 and of the 2100 that has none |
| Rtc.CollidesIff | kernel/src/boot/rtc.rs:217-219 | an accepted date collides with a later one exactly when its month has no such day |
| Rtc.DecodeRegisters | kernel/src/boot/rtc.rs:197-263 | every date and time of 2000 to 2099 comes back, binary or BCD, 24- or 12-hour, whatever the century register holds unless it reads 19 or 21; then nothing does |
| Rtc.DecodedCollides | kernel/src/boot/rtc.rs:95-114 | registers that show a day the month lacks are decoded, to the Unix time of a later date |
| Rtc.DecodedHasTimestamp | kernel/src/boot/rtc.rs:227-238 | whatever `decode` accepts has a Unix time |
| Rtc.DecodedFields | kernel/src/boot/rtc.rs:197-245 | whatever is decoded is in range, and seconds, minutes, day and month are what their registers show |
| Rtc.DecodedBytes | kernel/src/boot/rtc.rs:197-263 | one moment read from the register bytes of all four formats |
| Kbd.RunInv | kernel/src/input/kbd.rs:253-278 | the ring invariant holds after every interleaving of atomic loads and stores, stale loads included |
| Kbd.Fifo | kernel/src/input/kbd.rs:253-278 | popped bytes are a prefix of the accepted ones, at most 63 held, refusals only when 63 are held by the TAIL loaded |
| Kbd.Decisions | kernel/src/input/kbd.rs:268-278 | a byte is refused exactly when 63 are held by the TAIL loaded and let in only when fewer are held in truth; the ring is found empty exactly when the HEAD loaded shows nothing, and read only when a byte is held in truth |
| Kbd.NoSharedSlot | kernel/src/input/kbd.rs:259-276 | a slot is read only after its byte was stored, and never while it is being stored to |
| Kbd.AloneIsSteps | kernel/src/input/kbd.rs:253-278 | undisturbed, the steps of each party are the sequential operations |
| Kbd.KeyRing.Enqueue | kernel/src/input/kbd.rs:268-278 | the sequential enqueue on the statics |
| Kbd.KeyRing.PopByte | kernel/src/input/kbd.rs:253-262 | the sequential pop on the statics |
| Kbd.KeyRing.BytesEmpty | kernel/src/input/kbd.rs:264-266 | true exactly when a pop would find nothing |
| Win.TakenMeaning | kernel/src/ui/win.rs:360-390 | the first min(nfit, k) events of the process are delivered in order; all others stay queued in order, none lost or doubled |
| Win.RetainedMeaning | kernel/src/ui/win.rs:392-416 | dropping a process removes its events only |
| Win.CoalescedMeaning | kernel/src/ui/win.rs:225-245 | coalescing changes the newest event of that process and no other |
| Win.RunConserves | kernel/src/ui/win.rs:225-245 | over every run each process gets its own accepted events, in order, once each |
| Win.WinQueue.PushEv | kernel/src/ui/win.rs:351-358 | appends, or drops the event when seven are waiting |
| Win.WinQueue.PushClientMove | kernel/src/ui/win.rs:225-245 | replaces the newest event exactly when it is a move of the same process |
| Win.WinQueue.TakeForPid | kernel/src/ui/win.rs:360-390 | the ring keeps what is not delivered; the buffer holds the delivered events packed in 16 little-endian bytes each |
| Win.PackedReads | kernel/src/ui/win.rs:419-424 | event i of the buffer is read at byte 16 * i: kind, x, y, key, 32 bits each |
| Win.WinQueue.RetainOthers | kernel/src/ui/win.rs:392-416 | the ring keeps exactly the other processes' events, in order |

## Left out

- Vmm.Machine.MapUserIn: the walk through the page tables is not modelled; which frames become tables and what they hold is arbitrary.
- Elf.MapSegment: sums with `p_offset` are unbounded here; `ElfWidth` says exactly where the source's 64 bits differ. A build with overflow checks panics on the sum itself.
- Elf.Load: the ELF library's parse is an input; the entry point is not checked, as in the source.
- Elf.Unload: the flags of the page-table register.
- Pmm.Allocator.Init: entry addresses near 2^64, where the source's rounding would wrap.
- Blk.Table.Flush: what a device's own write cache holds until then; a sector written is on the disk.
- FatVolume.FatDisk.Read: what the cache holds after a device error; the source does not keep it coherent then.
- Gpt.WriteEsp: how the two GUIDs mix the clock; they are arbitrary 16-byte values.
- Install.Apply: what FAT writes and why it may refuse; its verdict is an input.
- Images.RunImages: what a process itself writes to its pages; the run covers what the kernel does to images.
- XhciEvents.EventRing.PopEvt: a controller posting between the two dword reads of one pop.
- XhciMailbox.Host.Pump: the waiting loops around it, and doorbells.
- XhciDelivery.Delivered: how long the waiting loops wait.
- Kbd.RunInv: orders between the ring and memory other than its slots and its two indices.
- Fd.EofMeaning: sleeping and waking; a call that would block answers so.
- Fd.RunInv: bytes lost because copying them to the process fails after they were taken from the ring.
- Fd.SysCloseFd: file and directory descriptors beyond their place in the table.
- Win.RunConserves: how windows are found by id, focus, painting and hit-testing.
- MMIO, PCI, AHCI, UHCI, interrupts, the scheduler, the compositor and the network stack: hardware access or code outside these five parts.
- `ps2.rs`: its producer moves the tail, so the key ring's argument does not carry over.
