# LXOS: file system, disk queue and address spaces

LXOS is a small 32-bit kernel in the style of xv6. This project models its three stateful cores in
Dafny and proves what they promise.

- **Disk queue and buffer cache.** `Ide.dfy` is the request queue as a step machine (append and start
  is one step, an interrupt another) and, beside it, the driver's linked queue. `Bio.dfy` is the cache
  of 30 buffers on a circular LRU list. The cache keeps every valid buffer equal to its disk block, so
  everything above it is stated about the disk.
- **File system.** `Layout.dfy` is the format on disk. `FsState.dfy` reads a disk as a bitmap, slots and
  files, and states block ownership: a bit is set exactly for metadata and for blocks one slot of one
  inode points at. `FsInodes.dfy` adds the inode cache. `FileSystems.dfy` has the kernel's procedures,
  each proved to keep the invariant and to do to the files what it is for. `Directories.dfy` and
  `Paths.dfy` treat directories as maps of names and paths as lists of names; `Calls.dfy` and
  `Descriptors.dfy` the system calls on files and the balance of their reference counts.
- **Image builder.** `Mkfs.dfy` builds an image without the kernel's code; `Boot.dfy` runs its main and
  then starts the kernel on the result, so every invariant above holds in a state that is reached.
- **Address spaces.** `Paging.dfy` reads physical pages as directories, tables, user memory and a free
  list, and gives every page in use one purpose; `Memories.dfy` has the page allocator and the operations
  on address spaces. `Images.dfy` says what a program file (System V gABI, chapter 5, "Program Header")
  asks memory to be and where arguments go; `Processes.dfy` is exec. Page tables have the two-level form of
  the Intel SDM, volume 3A, section 4.3.

Pointers into the kernel's static tables are indices, and the tables are fields of one class each. A
C procedure is a method proved against a specification of the new state; a long one is split at its
loops. Ghost fields name what the invariants speak of: who owns a block, what a page is used for,
which references are held.

Formats are stated twice. The code decodes and encodes records; beside it, lemmas say from the single
bytes what a superblock, an inode, a directory record, a bitmap bit, a page table word and an ELF
header mean (`Bytes.Le16` and `Le32` read bytes in order), so that a field moved in decoder and
encoder alike would be noticed.

What is taken for granted: a disk without errors, devices 0 and 1, block numbers below 1000, one
process, and interrupts only between steps of the queue. Many complaints of the source print and go on;
each is proved unreachable, given the resource it needs (a free block, a free inode, a buffer).

Where code and its promise differ:

- `mkfs` always rounds the root's size up, so that with a whole number of blocks of records the size
  claims a block never allocated. `Mkfs.RoundingMakesHole` and `Boot.MakeImage` say exactly when;
  `Boot.ThirtyFilesMakeHole` is the theorem for an image of thirty empty files.
- `open` with O_CREATE makes the file before it looks for a descriptor. Without a free one it returns
  -1 and leaves the new file behind; `Descriptors.Kernel.SysOpen` says so.

What holds of a cache, a disk or a memory at all times is stated once, as the invariant of its class
(`Valid`, `Sound`, `Balanced`), and the weight is in the methods that keep it; `CacheIsTheDisk` and
`LruIsOneCycle` only read out of it what a user of the cache wants to know.

## Model

| member | source | states |
|---|---|---|
| `Ide.QueueLinearizes` | drivers/ide.c:100-168 | for every interleaving of requests and interrupts that starts in a safe state, disk and buffers are, once the queue is drained, those of serving the requests one at a time in the order made |
| `Ide.Run` | drivers/ide.c:100-168 | after every such run the queue has no duplicates, holds only buffers still waited for, and one command is outstanding exactly when it is non-empty, for its head |
| `Ide.InterruptKeepsDrained` | drivers/ide.c:101-129 | finishing the head request in the handler leaves what the whole queue will come to unchanged |
| `Ide.ServeAllFrame` | drivers/ide.c:139-168 | serving a queue neither reads nor changes a buffer that is not in it |
| `Ide.Controller.FindTail` | drivers/ide.c:153-157 | the walk along qnext ends at the last queued buffer, in particular it ends |
| `Ide.Controller.Submit` | drivers/ide.c:139-162 | appends the buffer to the linked queue and starts the drive if it was idle; the links stay a null-terminated chain without duplicates |
| `Ide.Controller.Ideintr` | drivers/ide.c:101-129 | does what one interrupt step does to disk, buffers, queue and command, and keeps the linked queue well formed |
| `Ide.Controller.Iderw` | drivers/ide.c:139-168 | returns with nothing queued, every earlier request and then this one served in order; alone, it reads or writes just its own block |
| `Bio.UnlinkRing` | fs/bio.c:117-118 | unlinking an entry leaves prev and next one cycle through the remaining ones, in order |
| `Bio.PushFrontRing` | fs/bio.c:119-122 | pushing a buffer behind the head leaves one cycle with it first |
| `Bio.MoveToFrontKeepsListed` | fs/bio.c:114-123 | the relinking of brelse keeps one cycle through all buffers, moves exactly one of them to the front, and keeps the counts |
| `Bio.MoveToFrontKeepsOrdered` | fs/bio.c:114-123 | the list stays ordered by most recent release |
| `Bio.SomeUnheld` | fs/bio.c:67-76 | with fewer than 30 buffers held one is not, so bget's complaint is unreachable |
| `Bio.BufferCache.Binit` | fs/bio.c:28-46 | builds the cycle through all 30 zeroed buffers, the last one first, and establishes the cache invariant |
| `Bio.BufferCache.FindKey` | fs/bio.c:54-60 | finds the first buffer on the list with this device and block, or there is none |
| `Bio.BufferCache.FindVictim` | fs/bio.c:65-75 | finds, among the buffers nobody holds, the one released longest ago |
| `Bio.BufferCache.Bget` | fs/bio.c:49-78 | a hit adds a reference and changes no buffer; a miss recycles the unheld buffer released longest ago; no other buffer changes |
| `Bio.BufferCache.Bread` | fs/bio.c:81-91 | returns a held buffer with the bytes of the disk block (or those its holder is about to write), touching no buffer in use and not the disk |
| `Bio.BufferCache.Bwrite` | fs/bio.c:94-101 | the disk block becomes the buffer's bytes and nothing else on the disk changes |
| `Bio.BufferCache.Brelse` | fs/bio.c:105-126 | gives one reference back; the last one makes the buffer the most recently released |
| `Bio.BufferCache.CacheIsTheDisk` | fs/bio.c:49-126 | what the invariant kept by every cache method says of the buffers: a valid one equals its disk block unless its holder is about to write it, and no block is in two live ones |
| `Bio.BufferCache.Replay` | fs/bio.c:81-126 | any sequence of block reads and writes through the cache returns the bytes, and leaves the disk, of the same sequence on the plain disk, with no buffer left held |
| `Bio.BufferCache.LruIsOneCycle` | fs/bio.c:28-126 | what the same invariant says of the list: prev and next are one cycle through the head and all buffers, strictly ordered by last release |
| `Layout.GetPutSuper` | include/fs.h:19-27 | the superblock written into a block is the one read from it |
| `Layout.DinodeRoundTrip` | include/fs.h:33-40 | decoding the 64 bytes of an inode record gives the record encoded |
| `Layout.GetPutDinode` | fs/fs.c:149-158 | writing one inode record of a block changes that record and none of the other seven |
| `Layout.SuperBytes` | include/fs.h:19-27 | the seven fields of the superblock are the little-endian words at bytes 0 to 24 of its block |
| `Layout.DinodeBytes` | include/fs.h:33-40 | type, major, minor and links are two bytes each at 0, 2, 4 and 6 of an inode record, the size four at 8, the thirteen addresses four each from 12 on |
| `Layout.DirentBytes` | include/fs.h:57-60 | a directory record is two bytes of inode number and fourteen of name |
| `Layout.DirentRoundTrip` | include/fs.h:57-60 | decoding the 16 bytes of a directory record gives the record encoded |
| `Bytes.WordBytes` | include/elf.h:6-21 | a word in memory or on disk is four bytes, the lowest first |
| `Bytes.MapBitDigit` | fs/fs.c:55-57 | bit b of a bitmap is the one of value 2^(b mod 8) in byte b/8 |
| `Bytes.MapBitSetMapBit` | fs/fs.c:57-61 | setting or clearing a bit with the byte mask changes that bit of the map and no other |
| `Bytes.SpliceWindow` | fs/fs.c:350-407 | reading the range just written gives exactly the bytes written |
| `FsState.BitOnDisk` | include/fs.h:45-54 | block b is marked by that bit of byte b mod 4096 / 8 of block bmapstart + b/4096 |
| `FsState.InodeOnDisk` | include/fs.h:33-47 | the fields of inode i are at their offsets from byte 64*(i mod 8) of block inodestart + i/8 |
| `FsState.FileByteOnDisk` | fs/fs.c:276-308 | byte p of a file is byte p mod 512 of the block its address p/512 names, from the thirteenth on by the words of the indirect block |
| `FsState.OwnedMeansOneSlot` | fs/fs.c:46-87 | a data block's bit is set exactly if some slot of some inode holds the block, and then exactly one does |
| `FsState.RecordSlotGiven` | fs/fs.c:281-293 | a free block given to a direct slot or the indirect pointer keeps ownership, adds that one slot, costs one free block and leaves every other inode as it was |
| `FsState.EntryGiven` | fs/fs.c:295-302 | the same for an entry of the indirect block |
| `FsState.ThirteenthBlockGiven` | fs/fs.c:291-302 | the thirteenth block of a file takes two free blocks, the indirect one first, and adds one zero block to the file |
| `FsState.RecordSlotTaken` | fs/fs.c:315-332 | freeing the block of a direct slot or the emptied indirect block keeps ownership, clears that one slot and frees exactly that block |
| `FsState.EntryTaken` | fs/fs.c:325-328 | the same for an entry of the indirect block |
| `FsState.ChunkWritten` | fs/fs.c:394-400 | copying bytes into one block of a file splices them into its content; no other file, slot or bit changes |
| `FsInodes.CopyIsRecord` | fs/fs.c:143-231 | an inode has at most one entry in use, whose count is its references; a valid one equals the disk record; block bn of the file is there exactly if bn*512 < size, and the indirect block exactly beyond 12 blocks |
| `FsInodes.SomeEntryFree` | fs/fs.c:163-192 | fewer than 50 references leave an entry of the inode cache free |
| `FsInodes.AgreeAfterIalloc` | fs/fs.c:120-141 | writing a fresh record over a free one keeps the whole invariant and makes that inode an empty file of the type |
| `FsInodes.FreeInodeIsEmpty` | fs/fs.c:120-141 | a free inode owns no blocks, so zeroing its record leaks none |
| `FileSystems.FileSystem.Iinit` | fs/fs.c:100-115 | on a disk whose blocks satisfy the invariants the kernel starts with them, no inode referenced, and the superblock mkfs wrote |
| `FileSystems.FileSystem.Readsb` | fs/fs.c:21-29 | reads the superblock of block 1, changing neither disk nor held buffers |
| `FileSystems.FileSystem.Bzero` | fs/fs.c:32-41 | zeroes one block through the cache and changes no other |
| `FileSystems.FileSystem.FirstClear` | fs/fs.c:53-58 | finds the first clear bit of a bitmap block below the limit |
| `FileSystems.FileSystem.Balloc` | fs/fs.c:46-69 | marks and zeroes the lowest free block, which held no data of any file; fails only if all are in use |
| `FileSystems.FileSystem.Bfree` | fs/fs.c:72-87 | clears the bit of a block in use and changes nothing else |
| `FileSystems.FileSystem.RecordSlot` | fs/fs.c:281-293 | returns the block in a slot of the record, allocating it only if there was none, with the invariant kept |
| `FileSystems.FileSystem.EntrySlot` | fs/fs.c:295-302 | returns the block in an entry of the indirect block, allocating and writing it only if there was none |
| `FileSystems.FileSystem.Bmap` | fs/fs.c:276-305 | below the end of the file looks the block up and changes nothing; at the end grows the file by one zero block, taking one block, or two for the thirteenth |
| `FileSystems.FileSystem.CopyIn` | fs/fs.c:394-400 | one turn of writei's loop splices its bytes into the file at the exact cost in blocks, in one block or across the end |
| `FileSystems.FileSystem.WriteLoop` | fs/fs.c:394-400 | the loop splices all bytes, and leaves the record alone if the file does not grow |
| `FileSystems.FileSystem.Writei` | fs/fs.c:377-407 | refused ranges change nothing; otherwise the file's content becomes the old one with [off, off+n) replaced, size the larger end, every other file unchanged, at exactly ceil(t/512)-ceil(s/512) blocks plus one on first passing 12 |
| `FileSystems.FileSystem.CopyOut` | fs/fs.c:367-372 | one turn of readi's loop returns its bytes of the file and allocates nothing |
| `FileSystems.FileSystem.Readi` | fs/fs.c:350-374 | returns the bytes of [off, off+n) cut at the size, or -1 for a start past the end or a range that wraps; changes no block, inode or reference |
| `FileSystems.FileSystem.Iupdate` | fs/fs.c:144-160 | writes the inode's record, after which every record on disk is up to date, and changes no file |
| `FileSystems.FileSystem.Ialloc` | fs/fs.c:120-141 | takes the lowest free inode, which becomes an empty file of the type with one reference; fails only if none is free |
| `FileSystems.FileSystem.FindEntry` | fs/fs.c:168-178 | finds the entry in use for the inode, else the first free one |
| `FileSystems.FileSystem.Iget` | fs/fs.c:163-192 | adds one reference to the inode, sharing its entry if it has one, and moves no other entry; with fewer than 50 references it cannot fail |
| `FileSystems.FileSystem.Ilock` | fs/fs.c:206-231 | fills the entry in from the disk record if it was not valid, so it equals the inode |
| `FileSystems.FileSystem.FreeDirect` | fs/fs.c:315-320 | frees exactly the direct blocks of the file |
| `FileSystems.FileSystem.FreeIndirect` | fs/fs.c:322-332 | frees exactly the entries of the indirect block and the block itself |
| `FileSystems.FileSystem.Itrunc` | fs/fs.c:308-336 | the file becomes empty, every other is unchanged, and all its blocks, the indirect one included, are free again |
| `FileSystems.FileSystem.Iput` | fs/fs.c:244-265 | gives one reference back; if it was the last to an inode without links, the inode's blocks and the inode become free; otherwise nothing on the disk changes |
| `Directories.StrncmpIsEquality` | libc/string.c:118-126 | namecmp finds two buffers equal exactly if their characters within 14 bytes agree |
| `Directories.EntryBytes` | fs/fs.c:428-436 | record k of a directory is its sixteen bytes at 16*k |
| `Directories.CharsOfPadded` | libc/string.c:128-139 | a name of at most 14 characters, padded by strncpy, is read back as itself |
| `Directories.LinkedIsInsert` | fs/fs.c:446-473 | writing a record over a free one or at the end is insertion into the map of names, and keeps the directory well formed |
| `Directories.MapOfFilled` | fs/fs.c:457-470 | filling a free record binds one new name and disturbs no other |
| `Directories.WalkStep` | fs/fs.c:503-536 | resolving to the parent is looking up the first name and resolving the rest from there |
| `Paths.Skipelem` | fs/fs.c:477-500 | takes the first non-empty part between slashes, cut to 14 bytes, off the path's list of names; fails exactly if there is none |
| `Paths.Dirlookup` | fs/fs.c:419-443 | returns the inode the directory's map binds the name to, with one reference more, and the offset of the first record with the name; or nothing changed if it is not bound |
| `Paths.FindVacant` | fs/fs.c:457-463 | finds the first free record, or the end of the directory |
| `Paths.Dirlink` | fs/fs.c:446-473 | refuses a bound name with nothing changed; otherwise the directory's map gains exactly that binding and no other file changes |
| `Paths.Namex` | fs/fs.c:503-536 | equals looking up the path's names one by one from the root or cwd; exactly the returned inode gains a reference, on failure none does, and nothing on the disk changes |
| `Paths.Turn` | fs/fs.c:511-530 | one turn of the loop: refuse a non-directory, stop at the parent, or move the reference from the directory to what the name is bound to |
| `Calls.NewInode` | kernel/calls.c:83-90 | the new inode is the lowest free one, an empty file of the type, numbers and one link as asked, locked, with one reference |
| `Calls.CreateIn` | kernel/calls.c:83-103 | with an inode free and room in the parent: the new inode and its name there; all other files are unchanged and the tree stays well formed |
| `Calls.Create` | kernel/calls.c:63-106 | returns an existing ordinary file only when one is wanted, refuses any other name that is there and any path without a parent with files unchanged, in every state of the disk; creates a missing name; exactly the returned inode gains a reference |
| `Descriptors.FewOpen` | kernel/calls.c:109-151 | 16 descriptors hold at most 16 inode references through files |
| `Descriptors.SomeFileFree` | fs/file.c:23-38 | 16 descriptors cannot fill the table of 100 files, so filealloc never fails |
| `Descriptors.AccountsAfterClose` | fs/file.c:52-74 | closing the last descriptor of a file gives back exactly its inode reference and keeps every other count balanced |
| `Descriptors.AccountsAfterOpen` | kernel/calls.c:140-150 | a file taking over a reference and a descriptor naming the file keep every count balanced |
| `Descriptors.Kernel.FewReferences` | kernel/calls.c:47-215 | between calls at most 17 inode references are held, so iget never runs out of its 50 entries |
| `Descriptors.Kernel.Filealloc` | fs/file.c:23-38 | takes the lowest unused file |
| `Descriptors.Kernel.Fdalloc` | kernel/calls.c:47-60 | takes the lowest free descriptor, or fails because there is none |
| `Descriptors.Kernel.Fileclose` | fs/file.c:52-74 | drops one count; the last one makes the file unused and gives back its inode reference |
| `Descriptors.Kernel.SysOpen` | kernel/calls.c:109-151 | succeeds exactly if the path yields a file the mode allows and a descriptor is free; then the lowest descriptor names the lowest file on that inode; read-only it finds just what the path stands for, and a file it makes is empty with one link and no device numbers; a failure leaves descriptors, file table and references as before; counts stay balanced |
| `Descriptors.Kernel.SysMknod` | kernel/calls.c:154-169 | creates the device file, empty, with the numbers given and one link, or fails as create does; in either case it holds no more references than before |
| `Descriptors.ModeBits` | include/fctl.h:4-7 | the mode bits tested are those of value 1, 2 and 0x200 |
| `Descriptors.Kernel.SysClose` | kernel/calls.c:205-215 | clears the descriptor, or rejects one not open with nothing changed; in the file table only its own file changes, by one count or to unused; counts stay balanced |
| `Descriptors.Kernel.Fileread` | fs/file.c:90-107 | returns the file's bytes from the offset and moves it by as many; nothing else changes |
| `Descriptors.Kernel.Filewrite` | fs/file.c:111-145 | a write that fits comes to one splice of all bytes at the cost of one writei, whatever the 1536-byte chunks; otherwise the whole chunks that fit are written and -1 is returned; the offset moves by what was written |
| `Descriptors.ChunkStep` | fs/file.c:119-140 | each chunk can be paid for, or is refused when every whole chunk that fits is in |
| `Descriptors.ChunksJoin` | fs/file.c:119-140 | two successive writes through an offset come to one |
| `Paging.PageOfAddress` | include/mmu.h:26-30 | directory index and table index of an address are the two parts of its page number |
| `Paging.PoolPushed` | kernel/kalloc.c:31-41 | pushing a page keeps the free list a chain without duplicates, disjoint from the pages in use |
| `Paging.TablesAfterEntry` | kernel/vm.c:86-86 | writing one entry of a page table changes the translation of one page of one directory |
| `Paging.TablesAfterHang` | kernel/vm.c:64-69 | hanging a zeroed table changes no translation |
| `Paging.Undone` | kernel/vm.c:105-111 | building an address space and freeing it again leaves use, free pages, translations and memory as they were |
| `Memories.Memory.Kalloc` | kernel/kalloc.c:52-61 | returns the page freed last, or 0 when none is free; pages are conserved |
| `Memories.Memory.Kfree` | kernel/kalloc.c:32-41 | the page is filled, linked and becomes the first free one; no translation changes |
| `Memories.Memory.Freerange` | kernel/kalloc.c:43-49 | exactly the whole pages between the two addresses become free, on a sound memory, with all use as before |
| `Memories.Memory.Walkpgdir` | kernel/vm.c:54-72 | returns the table of the address, adding an empty one only if asked and none was there; where there is none, fails exactly without memory or without being asked; no translation changes |
| `Memories.Memory.Mappages` | kernel/vm.c:75-93 | maps exactly the pages of the range, also one that ends at 2^32, in order until memory runs out, taking at most one table for each 4 MB |
| `Paging.WalkBytes` | kernel/vm.c:53-75 | the translation of an address is what the processor finds from the little-endian words of the directory and the table |
| `Paging.KernelIsMapped` | kernel/vm.c:28-38 | in every whole address space page n of memory is found at KERNBASE + 4096*n, writable but from KERNLINK to the kernel's data, device pages at their own addresses, and nothing is the user's or elsewhere |
| `Paging.P2VIsMapped` | include/mmu.h:11-12 | the address the kernel uses for a page translates to that page |
| `Memories.Memory.KernelHalf` | kernel/vm.c:28-38 | that mapping holds in every directory of sound memory |
| `Memories.RowIsKernel` | kernel/vm.c:28-38 | the rows of kmap are disjoint and together the kernel's translation, with nothing between the last two |
| `Memories.Memory.Setupkvm` | kernel/vm.c:97-113 | a new directory in which each page of memory and each device page is found at its kernel address with the right to write it where the kernel has it, and no user page, every other address space unchanged; or everything taken given back, which needs at most 67 free pages |
| `Memories.Memory.Deallocuvm` | kernel/vm.c:171-194 | frees exactly the present pages from newsz rounded up to oldsz, unmaps them, and changes nothing else, though it skips 4 MB at a missing table |
| `Memories.Memory.DeallocTurn` | kernel/vm.c:180-192 | one turn advances without wrapping, over one page or to the next 4 MB, and unmaps all pages passed |
| `Memories.Memory.Freevm` | kernel/vm.c:40-52 | frees exactly the pages of one address space, whole or half built, and leaves all others as they were |
| `Memories.Memory.Inituvm` | kernel/vm.c:133-144 | one user page at address 0 with the given bytes and zeros; pages are conserved, and only that page and tables of its directory come into use |
| `Memories.Memory.Allocuvm` | kernel/vm.c:231-258 | on success exactly the new pages appear, zeroed, user-writable, on pages of their own; if memory runs out every translation and all memory is as before and only new tables are taken; with two free pages per page it succeeds |
| `Memories.Memory.UndoGrowth` | kernel/vm.c:246-255 | the rollback, with or without a page in hand, leaves only new tables |
| `Memories.Memory.Clearpteu` | kernel/vm.c:220-228 | takes the user bit off one page's entry and changes nothing else |
| `Memories.Memory.Uva2ka` | kernel/vm.c:259-270 | returns the memory page exactly for addresses the user may touch, all below the kernel |
| `Memories.Memory.Copyout` | kernel/vm.c:272-292 | user memory becomes the old one with the bytes copied in, up to the first page the user may not touch; succeeds exactly if there is none |
| `Images.HeaderBytes` | include/elf.h:6-21 | a file has a header exec takes exactly if it has 52 bytes and begins with the magic four; its entry, offset and number of program headers are the bytes at 24, 28 and 44 |
| `Images.ProgBytes` | include/elf.h:24-33 | type, offset, address, file size and memory size of program header i are the words at 0, 4, 8, 16 and 20 of its 32 bytes |
| `Images.TakenByBytes` | kernel/exec.c:47-62 | exec takes the segments exactly if each header is in the file and each loadable one has the sizes, place and bytes the source checks for; the first loadable one must not end at address 0 |
| `Images.LastCoverByte` | kernel/exec.c:47-62 | a byte of memory is the file's, from the last loadable header that covers it |
| `Images.SegmentImage` | kernel/exec.c:47-62 | a loadable segment no other one overlaps holds its bytes of the file up to filesz and zeros up to memsz |
| `Images.FrameStored` | kernel/exec.c:84-92 | the words pushed last are the return address, argc, argv and its null-terminated array of pointers to the strings |
| `Images.SpFalls` | kernel/exec.c:76-83 | the stack pointer falls past each string, so strings do not overlap, and stays word-aligned |
| `Processes.Process.Loaduvm` | kernel/vm.c:197-216 | user memory from addr becomes the file's bytes; fails exactly if the file is too short; no missing table is met |
| `Processes.Process.LoadSegment` | kernel/exec.c:50-61 | one loadable header extends the image and the mapped size as the specification says, or is one exec refuses, or memory is short |
| `Processes.Process.LoadProgram` | kernel/exec.c:35-62 | user memory is the fold of the file's segments over zeros, mapped exactly up to the size; on failure all pages, translations and memory are as before |
| `Processes.Process.MakeStack` | kernel/exec.c:67-73 | one guard page out of the user's reach and one stack page above the program, whose bytes are unchanged |
| `Processes.CopyEnds` | kernel/exec.c:76-92 | a string or frame pushed below what is there is copied in full exactly if all of it lies in the stack page, wrapped addresses included |
| `Processes.Process.Push` | kernel/exec.c:79-82 | succeeds exactly if all bytes lie in the stack page, and then changes only those |
| `Processes.Process.PushStrings` | kernel/exec.c:76-83 | succeeds exactly for at most 5 arguments that fit, each NUL-terminated at the address recorded for it |
| `Processes.Process.BuildStack` | kernel/exec.c:67-92 | the whole argument stack at the final pointer, or every page given back because the arguments do not fit or memory is short |
| `Processes.Process.LastName` | kernel/exec.c:95-97 | the part of the path after its last slash |
| `Processes.Process.Exec` | kernel/exec.c:11-119 | all or nothing: on -1 process, memory, free pages and references are as before; on 0 the entry is the one at byte 24 of the file, memory holds each byte as the last program header that covers it says and zeros elsewhere, stack and name are the program's, and exactly the old space's pages are free; it fails only for want of a file, for a program or arguments it cannot take, or of memory |
| `Mkfs.MarkBitsAre` | utils/mkfs.c:243-246 | the bitmap marks exactly the blocks below the count |
| `Mkfs.MarkedNext` | utils/mkfs.c:264-284 | handing out the next block in sequence is, for the disk with its bitmap, what the kernel's allocator would do |
| `Mkfs.Builder.Inoalloc` | utils/mkfs.c:221-233 | the next inode is an empty file of the type with one link; no other file changes |
| `Mkfs.Builder.Iappend` | utils/mkfs.c:253-295 | the file's content becomes the old one followed by the bytes, in direct and indirect blocks the kernel finds; no other file changes; the exact number of blocks is taken |
| `Mkfs.Builder.Balloc` | utils/mkfs.c:235-249 | the bitmap block has exactly the first used bits set |
| `Mkfs.Builder.Finish` | utils/mkfs.c:156-163 | after rounding the root and writing the bitmap, ownership holds on the disk, the inode list is that of the records on it, only the root has changed, and no inode has a hole exactly if the root's size was not a whole number of blocks; otherwise the block past the root's bytes is missing |
| `Mkfs.RoundingMakesHole` | utils/mkfs.c:157-161 | rounding a directory's size up leaves it without a hole exactly if the size was not a multiple of 512 |
| `Boot.AddFile` | utils/mkfs.c:131-154 | one more file: its inode, its record in the root, its bytes for every chunking, at the exact cost in blocks |
| `Boot.FilesFoundByName` | utils/mkfs.c:114-148 | in the finished image a host file is found under a slash and its name, without the underscore if it begins with one, unless an earlier one agrees in 14 bytes; the root is found as dot and dot-dot |
| `Boot.MakeImage` | utils/mkfs.c:94-165 | some list of inodes and owners makes the image one the kernel's whole invariant holds of, exactly if the number of files plus 2 is not a multiple of 32; then its inodes are the files given, each found under its name as shown, and the tree is well formed; otherwise the root's record on the disk claims a block it does not have |
| `Boot.ThirtyFilesFit` | utils/mkfs.c:94-165 | thirty empty files are an input mkfs takes: they fit in the image, and with the two dots their records fill the root's block |
| `Boot.ThirtyFilesMakeHole` | utils/mkfs.c:94-165 | for mkfs's image of those thirty files the kernel's invariant holds under no inodes and owners whatever: the root's record on the disk has size 1024 and no second block |
| `Boot.FileIsThere` | utils/mkfs.c:143-151 | the path of a slash and a file's name leads to the concatenation of its chunks, unless an earlier record took the name |
| `Processes.Uinit` | kernel/proc.c:94-116 | the first process, named init, has exactly one user page, with init's bytes from its entry at 0, the kernel's mapping, and the root as working directory, held by one new reference; every page is conserved, and the only ones newly in use are its kernel stack and its address space |
| `Boot.StartMemory` | kernel/kernel.c:23-28 | the pages the allocator has, free or in use, are exactly those from the kernel's end to PHYSTOP, none lost between the two ranges; the kernel's own directory is made in between if 68 pages lie below 4 MB, and no page but its own is in use; the whole invariant holds |
| `Boot.StartKernel` | kernel/kernel.c:23-33 | from an image and empty memory the kernel comes up, all in new objects: no file is open, accounts balance, memory is sound, the process called init has init's bytes and zeros in its one page, starts at 0 with its stack at the top, in the root; each page from the kernel's end to PHYSTOP is free, the kernel stack, or part of the kernel's or the process's address space; exec and every file call may begin |
| `Boot.ExecKeepsPages` | kernel/exec.c:11-119 | exec loses no page of memory, and does and refuses what exec does and refuses |
| `Boot.ExecKeepsUp` | kernel/exec.c:11-119 | exec by the process of a kernel that is up runs the program or restores everything, for the same reasons, and leaves it up, accounts balanced, with the same files, references and pages, each page in use still in its place: over any run of file calls and exec no page leaks |
| `Boot.BootImage` | fs/fs.c:100-115 | the kernel starts on the image with all its invariants, and its files are those mkfs was given |

## Left out

- Port I/O, interrupt stubs, descriptor tables, context switch, boot loader, screen, keyboard and shell: hardware plumbing and user interface.
- Scheduler, `exit` and the process table: there is one process; `Processes.Process` holds the fields exec changes, and `Processes.Uinit` takes its kernel stack as a page.
- Fetching of system call arguments (`argint`, `argstr`, `argptr`, `argfd`'s own fetch) and the wrappers `sys_read`, `sys_write`, `sys_exec`: the calls below them take decoded arguments.
- `filestat`, `stati`, `filedup` and `sys_fstat`: they copy fields or add one to a count.
- Disk errors (`idewait(1) < 0`), a missing disk 1, and an interrupt in the middle of `iderw`'s list walk.
- `create` with type T_DIR: no system call makes a directory.
- The log area of the disk, which nothing uses.
- Host files in mkfs: its sectors are a sequence and its inputs byte sequences.
- `switchuvm`, `switchkvm` and `seginit`: they load registers.
- Sharing of `struct buf`: the driver's fields and the cache's fields of a buffer are two records under one index.
- FileSystems.FileSystem.Writei: asks that the free blocks it needs are there, because the source writes to block -1 when they are not; and that the inode is not a device, whose write goes through `devsw`.
- FileSystems.FileSystem.Readi: asks that the inode is not a device, whose read goes through `devsw`.
- FileSystems.FileSystem.Iget: asks for fewer than 50 references, because the source goes on with a null pointer; `Descriptors.Kernel.FewReferences` proves it for the system calls.
- Calls.Create: asks, only when it comes to make a file, for a free inode and room in the parent directory, because the source goes on with a null inode or a missing name; the same holds for `SysOpen` and `SysMknod`.
- Descriptors.Kernel.Fileread: is about files and directories, not devices; the same holds for Filewrite.
- Processes.Process.Exec: asks that the path does not name a device, and that no argument pushed wraps to an address below the device pages, where there is no page table and `uva2ka` dereferences a null entry.
- Memories.Memory.Copyout: asks that a page table exists for each page up to the first the user may not touch, for the same reason.
- Memories.Memory.Inituvm: asks for two free pages and less than a page of bytes, because the source checks neither allocation.
- Boot.MakeImage: asks that the files fit, because the source checks only the length of each file.
