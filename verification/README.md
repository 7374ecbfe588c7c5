# Sprocket kernel cores in Dafny

Four stateful cores of the Sprocket kernel, each proved against a simple abstract meaning:

* **`simple_fs`** and its formatter (`Bytes`, `Layout`, `FreeList`, `Volume`, `Blocks`, `FileImage`,
  `Directory`, `FileSystem`, `Mkfs`). The disk is 1000 blocks of 512 bytes. The casts between bytes and
  32-bit fields are modelled on the bytes. The main results are that each data block is at all times on
  the free list or in one slot of one inode, on disk or in memory; that the unrolled free list is a stack,
  which freeing a block destroys exactly if the block is free already; that `read` and `write` are
  described exactly for every offset, also when the blocks run out on the way, with the exact calls on
  which they are positioned reads and writes; that a run of `dir_add` makes each name findable, at its own
  offset, exactly if it fits its entry; and that an image built by the formatter returns every file whose
  name fits.
* **`kalloc`** (`MemUtils`, `PageRuns`, `Kalloc`, `RangeAlloc`). The list whose headers live in the free
  pages is the one canonical list of the free page set. Allocation therefore fails only when no run of
  free pages is long enough, the order of frees leaves no trace, and a free undoes an allocation exactly.
  Allocator and clients do not write into each other's pages.
* **`vm`** (`PageTables`, `Vm`, `KernelMap`). The two-level tables refine a flat map from pages to
  entries. The tables come from the `kalloc` model, so `setupkvm` is proved to succeed exactly when 65
  pages are free and then to give every address its intended translation, none of them open to user mode.
* **`spinlock`** (`Spinlock`). A step system in which a handler may run between any two micro-steps while
  interrupts are enabled. Over every run, interrupts on means no lock held, handlers do not nest, and
  the flag after the last drop is the one at the outermost `lock()`.

Code that updates state in place is a class whose methods state the new state in terms of the old; the
reasoning is in lemmas about values, which the methods call. `hide` statements keep definitions out of
proofs that do not need them. `dafny verify dfyconfig.toml` covers the whole project.

## Choices in the model

* Disk reads and writes succeed; the device number is dropped, as `DiskFile` drops it. A write replaces
  the first bytes of a block and keeps the rest. Integers are little-endian, and padding is written as
  zeros.
* An `InodeType` is its 16-bit code. `.unwrap()` and `?` both end an operation with the error. What the
  source guards with a panic (an index out of bounds, a failed assertion, an arithmetic overflow in the
  development profile in which Makefile:96 builds the kernel) is a precondition, and the assertions inside `mkfs`, `write_file`, `verify` and `dealloc` are proved to hold.
* An inode that is being changed in memory is named by a ghost argument `inum`. `View.table` holds the
  current inodes and `View.dirty` those that differ from their copy on disk. When `write_file` runs out of
  blocks while copying data it drops the only inode that maps the blocks taken so far: the invariant then
  speaks of an inode that nobody has, and on disk those blocks are lost. `Mkfs.WriteFile` says exactly when.
* `Volume.Owner` says who holds a block that is not free: a slot of an inode, or the caller of
  `alloc_block`. The formatter holds all data blocks until it frees them.
* `mkfs` clears 256 blocks from where the superblock on the disk has its inode table, before it writes its
  own superblock. On an all-zero disk these are blocks 0 to 255. `Mkfs.Formattable` is the exact condition
  under which all of the new table is then unused.
* Page numbers stand for page-aligned addresses. The list sentinel lies below the end of the kernel
  image. Masks and shifts are remainders and quotients; four lemmas of `MemUtils` relate the two on words.
* Running out of memory in `box` is an outcome of the page-table methods. The permission flags passed to
  `map_pages` do not include PRESENT.
* In the lock model `entry` and `saved` record the interrupt flag at an outermost `lock()` and the flag
  pushed by the hardware.

Where the code and its comments differ the code is followed: the constant `INODE_SIZE` of 62
(lib/simple_fs/src/lib.rs:25) is not the size the code uses, which is 272; the bound asserted by
`read_inode` (lib/simple_fs/src/lib.rs:108) admits one number too many; the offset handling in `read`
and `write` does not do what their comments describe for offsets other than those in
`FileImage.ReadIsExact` and `FileImage.WriteIsExact`; and `dir_add`, when it takes the place of an unused
last entry, makes the directory one entry longer (`Directory.ReuseGrows`).

## Model

| member | source | states |
|---|---|---|
| Bytes.WordsOfOverlay | lib/simple_fs/src/lib.rs:524-526 | Writing 32-bit fields through a cast buffer replaces exactly those words of the block and keeps all others. |
| Bytes.CastRoundTrip | lib/simple_fs/src/lib.rs:173-178 | Casting 128 words to a block and back gives the same words. |
| Bytes.LittleEndian | lib/simple_fs/src/lib.rs:524-526 | The four bytes of a word, the least significant first. |
| Bytes.StoredLittleEndian | lib/simple_fs/src/lib.rs:173-178 | Word i of a cast block lies in bytes 4i to 4i+3, the least significant first. |
| Layout.InodeTableLayout | lib/simple_fs/src/lib.rs:44-47 | Inode numbers map to distinct blocks, which are blocks 1 to 256 exactly for numbers below 256; the number 256, which `read_inode` admits, is block 257, the first data block. |
| Layout.InodeFieldOffsets | lib/simple_fs/src/lib.rs:572-581 | The C layout of a stored inode: the byte offset of every field in its block, and that the rest of the block is kept. |
| Layout.PutInodeRoundTrip | lib/simple_fs/src/lib.rs:136-141 | An inode stored through the cast is read back unchanged, whatever the block held. |
| Layout.SbRoundTrip | lib/simple_fs/src/lib.rs:194-198 | A superblock stored through the cast is read back unchanged. |
| Layout.SbFieldOffsets | lib/simple_fs/src/lib.rs:528-536 | The C layout of the superblock: the byte offset of every field, and that the rest of the block is kept. |
| FreeList.HeadSlots | lib/simple_fs/src/lib.rs:162-167 | The non-zero slots of the head node are a prefix, its length is the fill of the head, and they are the top of the stack. |
| FreeList.PushIntoHead | lib/simple_fs/src/lib.rs:249-255 | Filling the first empty slot of the head pushes the block on the stack. |
| FreeList.PushNewHead | lib/simple_fs/src/lib.rs:256-275 | With no head or a full one, a block that links to the old head and is otherwise zero pushes itself. |
| FreeList.PopFromHead | lib/simple_fs/src/lib.rs:171-185 | Clearing the last filled slot pops the stack, whatever is then written to the popped block. |
| FreeList.PopHead | lib/simple_fs/src/lib.rs:188-205 | A head with no filled slot is the top of the stack, and its link is the head of the rest. |
| FreeList.RepUnique | lib/simple_fs/src/lib.rs:149-278 | A disk represents at most one stack: the list is acyclic and has one reading. |
| FreeList.ChainShape | lib/simple_fs/src/lib.rs:149-278 | Following the links visits ceil(n/128) nodes, none twice, ends at the null link, and every node below the head is full. |
| FreeList.PushTwice | lib/simple_fs/src/lib.rs:249-255 | Filling a slot of the head with a block that is on the list already leaves a disk that represents no stack at all. |
| FreeList.PushHeadTwice | lib/simple_fs/src/lib.rs:256-275 | Making a block that is on the list already the new head leaves no stack either. |
| Volume.Conservation | lib/simple_fs/src/lib.rs:149-278 | In every valid state the free blocks and the owned blocks together number 743. |
| Volume.NoSharing | lib/simple_fs/src/lib.rs:368-374 | A block in two inode slots means the slots are the same; a mapped block is a data block and not free. |
| Volume.InodeArray | lib/simple_fs/src/lib.rs:126-147 | The table on disk obeys the array laws: an update is read back and changes no other inode. |
| Volume.WriteMapped | lib/simple_fs/src/lib.rs:463-482 | Overwriting a mapped block keeps the invariant, changes that block of that file and nothing of any other file. |
| Blocks.LastUsedSlot | lib/simple_fs/src/lib.rs:162-167 | Finds the last non-zero slot of a node, or that there is none. |
| Blocks.FirstUnusedSlot | lib/simple_fs/src/lib.rs:244-247 | Finds the first zero slot of a node, or that there is none. |
| Blocks.TakeSlotPops | lib/simple_fs/src/lib.rs:169-185 | On the bytes of the disk, the slot branch of `alloc_block` takes the top of the stack, zeroes it, and writes no block outside the list. |
| Blocks.TakeHeadPops | lib/simple_fs/src/lib.rs:187-205 | The head branch of `alloc_block` does the same and moves the superblock to the next node. |
| Blocks.PutSlotPushes | lib/simple_fs/src/lib.rs:249-255 | The slot branch of `free_block` pushes the block and writes only the head. |
| Blocks.PutHeadPushes | lib/simple_fs/src/lib.rs:256-275 | The new-head branch of `free_block` pushes the block and writes only it and the superblock. |
| Blocks.SlotFreed | lib/simple_fs/src/lib.rs:249-255 | On the bytes of the disk, for any block: pushed if it was not free, the list lost if it was. |
| Blocks.HeadFreed | lib/simple_fs/src/lib.rs:256-275 | The same for the new-head branch. |
| Blocks.LendAfterRelease | lib/simple_fs/src/lib.rs:149-278 | Freeing a block and allocating again gives the same block and restores the state. |
| Blocks.AttachKeeps | lib/simple_fs/src/lib.rs:368-374 | Mapping a fresh block keeps the invariant and changes no file image, because the block is zeroed. |
| FileImage.PutChunksAt | lib/simple_fs/src/lib.rs:491-496 | Which byte of the source each byte of the file gets from the chunk loop, for every starting offset. |
| FileImage.WriteByte | lib/simple_fs/src/lib.rs:440-507 | Every byte of a file after a write at any offset: right in the block of the offset, and in every later block the source from `offset % 512` bytes further on. |
| FileImage.SizeAfterWrite | lib/simple_fs/src/lib.rs:484-502 | The size after any write, in numbers. |
| FileImage.WriteSucceeds | lib/simple_fs/src/lib.rs:446-457 | A write succeeds if and only if the inode is a file or directory, the offset is within it, the end is within 32768 bytes and enough blocks are free; which error it gives otherwise. |
| FileImage.WritePrefix | lib/simple_fs/src/lib.rs:440-507 | A write that stops at a position has done what the write of the part before that position does. |
| FileImage.CarriedOut | lib/simple_fs/src/lib.rs:459-496 | First block and chunk loop together carry out the write of all of the source, or of the prefix before the first block that cannot be had. |
| FileImage.FreshNeeds | lib/simple_fs/src/lib.rs:459-496 | A new file of n bytes takes ceil(n/512) blocks, an empty one takes one. |
| FileImage.WriteFromStart | lib/simple_fs/src/lib.rs:440-507 | A write at offset 0 puts the source at the start of the file and keeps the rest. |
| FileImage.WriteInexact | lib/simple_fs/src/lib.rs:463-502 | For every size, offset and length outside the condition, a source on which `write` is not a positioned write. |
| FileImage.WriteExactness | lib/simple_fs/src/lib.rs:440-507 | `write` is a positioned write for all file contents and sources if and only if `WriteIsExact` holds of the size, offset and length. |
| FileImage.OverwriteGrows | lib/simple_fs/src/lib.rs:484-488 | Rewriting 50 bytes inside a file of 100 bytes sets its size to 150. |
| FileImage.ReadExactness | lib/simple_fs/src/lib.rs:386-438 | `read` returns the bytes of the file for all contents and buffers if and only if `ReadIsExact` holds of the offset and length. |
| FileImage.ReadSucceeds | lib/simple_fs/src/lib.rs:392-411 | A read succeeds if and only if its checks pass and every block it visits is mapped, and then returns the bytes asked for or those up to the end; which error it gives otherwise. |
| FileImage.UnalignedReadStops | lib/simple_fs/src/lib.rs:415-421 | A read of 512 bytes at offset 1 leaves the last byte of the buffer as it was. |
| Directory.StoredInFull | lib/simple_fs/src/lib.rs:463-488 | An entry stores its name in full if and only if the name has no NUL and fits the part of the entry in its first block. |
| Directory.EntryOffsets | lib/simple_fs/src/lib.rs:600-604 | The C layout of a directory entry: the number in 4 bytes, then the name, then zeros up to 260. |
| Directory.FullName | lib/simple_fs/src/lib.rs:352 | A name that fills its 254 bytes is read in full, without a terminator. |
| Directory.NameLost | lib/simple_fs/src/lib.rs:463-488 | Entry 63 keeps no byte of its name. |
| Directory.PutEntryAt | lib/simple_fs/src/lib.rs:303-329 | Writing an entry, new or in place of another, leaves all others as they read before and stores the first part of the name, although entries straddle blocks. |
| Directory.PutResult | lib/simple_fs/src/lib.rs:303-329 | The size, block need and error of writing an entry at any place in the directory or at its end. |
| Directory.PutIsDir | lib/simple_fs/src/lib.rs:296-329 | After the write the inode is still a directory if and only if `StaysDir` holds of the entry and the number of entries. |
| Directory.ReuseGrows | lib/simple_fs/src/lib.rs:308-316 | Taking the place of an unused entry keeps the length of the directory if and only if it is not the last of several. |
| Directory.ReadEntry | lib/simple_fs/src/lib.rs:337-341 | What a lookup reads at offset 260k into a zeroed buffer is the stored part of entry k padded with zeros. |
| Directory.AddIsMapUpdate | lib/simple_fs/src/lib.rs:280-364 | Adding a new name, in an unused entry or at the end, is an update of the finite map from names to inodes if and only if the name fits its entry. |
| Directory.FoundStays | lib/simple_fs/src/lib.rs:334-364 | No run of additions changes what an already found name finds, nor the offset where it is found. |
| Directory.AddedIsFound | lib/simple_fs/src/lib.rs:280-364 | Over any run of additions, a name is found with its own target and at its own offset if and only if it fits its entry. |
| Directory.OthersFoundAsBefore | lib/simple_fs/src/lib.rs:334-364 | Over any run of additions, every name that none of them stores has the same lookup result as before. |
| SimpleFs.FileSystem.DiskWrite | lib/simple_fs/src/bin.rs:168-180 | A write replaces the first bytes of the sector, keeps the rest and returns its length. |
| SimpleFs.FileSystem.AllocBlock | lib/simple_fs/src/lib.rs:149-207 | Pops the stack and zeroes the block; ExhaustedBlocks exactly when the stack is empty; keeps the invariant, every block in use and every superblock field but the list head. |
| SimpleFs.FileSystem.FreeBlock | lib/simple_fs/src/lib.rs:213-278 | For any block but the superblock: the disk still holds a list if and only if the block was not free, and then it is pushed; a block given back by its holder keeps the invariant and every block in use; of the superblock only the list head changes. |
| SimpleFs.FileSystem.BmapOrAlloc | lib/simple_fs/src/lib.rs:368-374 | Returns the mapped block or maps the top of the stack, with no change to any file image. |
| SimpleFs.FileSystem.ReadRest | lib/simple_fs/src/lib.rs:424-434 | The loop of `read` fills whole blocks from byte 512 on, or reports the first unmapped block. |
| SimpleFs.FileSystem.ReadBlocks | lib/simple_fs/src/lib.rs:410-434 | First block and loop together give `ReadByte` for every byte of the buffer, or the first unmapped block. |
| SimpleFs.FileSystem.Read | lib/simple_fs/src/lib.rs:386-438 | The result and every byte of the buffer, for every offset, length and inode on which the code stays within the block slots. |
| SimpleFs.FileSystem.PutPiece | lib/simple_fs/src/lib.rs:459-482 | One block of a write: mapped if need be and overlaid, nothing else changed. |
| SimpleFs.FileSystem.PutRest | lib/simple_fs/src/lib.rs:491-496 | The chunk loop writes the chunks up to the first block that cannot be had, maps exactly the blocks of those, and gets to the end if and only if enough blocks are free. |
| SimpleFs.FileSystem.WriteBlocks | lib/simple_fs/src/lib.rs:459-496 | First block and loop together carry out the write, or its prefix, and succeed exactly when enough blocks are free. |
| SimpleFs.FileSystem.Write | lib/simple_fs/src/lib.rs:440-507 | The result, size, image, block map and free count for every offset and length, also when the blocks run out; the inode table on disk, the superblock but for the list head, and all other files unchanged; dirty exactly if the inode has changed. |
| SimpleFs.FileSystem.AllocInode | lib/simple_fs/src/lib.rs:68-104 | Stores the inode under the least unused number and writes nothing else; ExhaustedInodes exactly when all are in use; the invariant is kept for an inode that maps no block. |
| SimpleFs.FileSystem.ReadInode | lib/simple_fs/src/lib.rs:106-124 | Returns the inode stored in the block of that number. |
| SimpleFs.FileSystem.UpdateInode | lib/simple_fs/src/lib.rs:126-147 | Replaces the inode in its block, also before a superblock exists; in a valid state memory and disk agree on it afterwards. |
| SimpleFs.FileSystem.DirLookup | lib/simple_fs/src/lib.rs:334-364 | Returns target and offset of the first live entry with the name, else NotFound. |
| SimpleFs.FileSystem.FreeSlot | lib/simple_fs/src/lib.rs:296-316 | Finds the first entry not in use, or that all are. |
| SimpleFs.FileSystem.DirAdd | lib/simple_fs/src/lib.rs:280-332 | Which of the four outcomes occurs; on success the entry takes the place of the first unused one or goes to the end, with the new size, blocks and entries; an error changes nothing. |
| SimpleFs.FileSystem.DirAppend | lib/simple_fs/src/lib.rs:318-329 | With all entries in use one entry is appended, at the cost of the directory blocks it needs. |
| SimpleFs.FileSystem.AddAll | lib/simple_fs/src/lib.rs:280-332 | A run of `dir_add` leaves on disk the entries `AfterAdds` of the names before the first failure, and succeeds if and only if the names are new in turn and bytes and blocks suffice. |
| SimpleFs.FileSystem.AddAllThenLookup | lib/simple_fs/src/lib.rs:280-364 | After such a run `dir_lookup` returns a name's own target and offset if and only if the name fits its entry. |
| SimpleFs.FileSystem.Namex | lib/simple_fs/src/lib.rs:510-519 | Looks the name up in the root directory, and only there. |
| Mkfs.FreshWriteHolds | lib/simple_fs/src/bin.rs:41-44 | Writing data at offset 0 of a fresh inode makes its size the length and its content the data, and leaves it a file on device 1. |
| Mkfs.ReadBack | lib/simple_fs/src/bin.rs:46-54 | A read from 0, within one block, or long enough from a block boundary returns the smaller of the length asked for and what the file has from there. |
| Mkfs.ReadDone | src/file.rs:63-68 | After such a read the buffer holds that many bytes of the file from the offset on, and the rest of it is unchanged. |
| Mkfs.BlocksUsedAppend | lib/simple_fs/src/bin.rs:27-63 | The blocks one more file takes: its own, and a directory block if its entry starts in a new one. |
| Mkfs.StageFile | lib/simple_fs/src/bin.rs:31-55 | Stores the data in the next inode, a file on device 1, beside all earlier files, or gives the exact error; when the blocks run out they are all taken and the inode on disk maps none of them. |
| Mkfs.LinkFile | lib/simple_fs/src/bin.rs:57-60 | Adds the name to the root directory without disturbing any file, or gives the exact error and changes nothing. |
| Mkfs.WriteBack | lib/simple_fs/src/lib.rs:126-147 | In a consistent file system, writing an inode back makes it clean and changes no file. |
| Mkfs.WriteFile | lib/simple_fs/src/bin.rs:27-63 | Succeeds exactly when `AddResult` says so, and then the disk holds the earlier files and the new one, each a file on device 1 under at most 254 bytes of name; an inode is left unwritten if and only if the blocks ran out while data was copied and some had been taken. |
| Mkfs.LargestFile | lib/simple_fs/src/bin.rs:41-44 | Into a new image goes any file of up to 32768 bytes and none longer. |
| Mkfs.ZeroDiskFormattable | Makefile:73 | An all-zero disk meets the precondition of the formatter. |
| Mkfs.FormattedIsFormattable | lib/simple_fs/src/bin.rs:65-71 | So does any disk that already holds a file system. |
| Mkfs.ClearInodes | lib/simple_fs/src/bin.rs:68-71 | All 256 inodes of the new table end up unused if and only if the disk was formattable; nothing outside the 256 cleared blocks is written. |
| Mkfs.MakeFreeList | lib/simple_fs/src/bin.rs:77-105 | Exactly blocks 257 to 999 end up on the free list, in that order, and the superblock says size 0, 1000 blocks, 256 inodes from block 1. |
| Mkfs.AddDots | lib/simple_fs/src/bin.rs:119-137 | The root directory holds "." and ".." at offsets 0 and 260 and takes one block. |
| Mkfs.RootDots | lib/simple_fs/src/bin.rs:134-136 | Whatever files have been added, looking up "." gives inode 0 at offset 0 and ".." inode 0 at offset 260. |
| Mkfs.Mkfs | lib/simple_fs/src/bin.rs:65-138 | Establishes the invariant with the superblock above, only the root inode in use, a directory on device 1, and no files. |
| Mkfs.BuildImage | lib/simple_fs/src/bin.rs:13-25 | Succeeds exactly when each file can be added after those before it, and then holds exactly those files. |
| Mkfs.ReadWhole | src/file.rs:22-31 | Opening a found name and reading the whole file returns its data; an unknown name or another path is NotFound. |
| Mkfs.SimpleFile.Read | src/file.rs:63-68 | Reading an open file gives the next bytes, as many as the buffer takes and the file has, and moves the offset by the length of the buffer. |
| Mkfs.SimpleFile.ReadByBlocks | src/file.rs:63-68 | Reading 512 bytes at a time until the end returns the whole file. |
| Mkfs.BuiltByAdds | lib/simple_fs/src/bin.rs:57-60 | The root directory of an image is the result of a run of additions under new names. |
| Mkfs.FoundIffFits | lib/simple_fs/src/bin.rs:57-60 | In an image a file is found under its own name, at its own offset, if and only if the name fits its entry. |
| Mkfs.BuildAndRead | lib/simple_fs/src/bin.rs:13-63 | Format, write all files, look one up and read it back: its original bytes, if its name fits. |
| MemUtils.PageRoundUp | lib/mem_utils/src/lib.rs:30-35 | The least page boundary at or above the address. |
| MemUtils.PageNoSpan | lib/mem_utils/src/lib.rs:133-136 | The page numbers of the ends of an aligned span differ by its length in pages. |
| MemUtils.PageNoRoundTrip | lib/mem_utils/src/lib.rs:116-136 | `pageno` undoes `from_pageno`, and an address inside a page has the number of the next one. |
| MemUtils.AddressParts | lib/mem_utils/src/lib.rs:125-131 | Directory index, table index and offset determine the address. |
| MemUtils.MaskIsRoundDown | lib/mem_utils/src/lib.rs:37-42 | On 32-bit words the mask of the code is the remainder taken off. |
| MemUtils.ShiftIsDirIndex | lib/mem_utils/src/lib.rs:125-127 | Shift and mask give the directory index. |
| MemUtils.ShiftIsTableIndex | lib/mem_utils/src/lib.rs:129-131 | Shift and mask give the table index. |
| MemUtils.OrIsSum | src/vm.rs:197-198 | Or-ing flags and a page address is their sum. |
| PageRuns.RunOfFreePages | lib/kalloc/src/allocator.rs:99-112 | In a canonical list consecutive free pages lie in a single range. |
| PageRuns.CanonicalUnique | lib/kalloc/src/allocator.rs:65-155 | A set of pages has exactly one canonical list. |
| PageRuns.InsertPages | lib/kalloc/src/allocator.rs:95-112 | Inserting and merging adds exactly the pages of the new range. |
| PageRuns.InsertCanonical | lib/kalloc/src/allocator.rs:95-112 | Inserting a disjoint range with both merges keeps the list canonical. |
| PageRuns.TakePages | lib/kalloc/src/allocator.rs:137-149 | Taking k pages from the end of a range removes exactly those pages. |
| PageRuns.FirstFitComplete | lib/kalloc/src/allocator.rs:134-154 | First fit finds a range if and only if some k consecutive pages are free. |
| PageRuns.FreeOrderIrrelevant | lib/kalloc/src/allocator.rs:65-119 | Freeing the same ranges in two orders gives the same list. |
| PageRuns.TakeInsert | lib/kalloc/src/allocator.rs:65-155 | Freeing what an allocation took gives back the identical list. |
| Kalloc.ChainLink | lib/kalloc/src/allocator.rs:96-97 | Linking a header in at its position gives the list in memory with the range inserted. |
| Kalloc.ChainJoin | lib/kalloc/src/allocator.rs:104-111 | Taking over the next header gives the list in memory with the two ranges joined. |
| Kalloc.ChainShrink | lib/kalloc/src/allocator.rs:39-51 | Reducing the size in a header carves pages off the end of its range. |
| Kalloc.ChainUnlink | lib/kalloc/src/allocator.rs:143-149 | Bypassing a header removes its range. |
| Kalloc.JoinedIsInsert | lib/kalloc/src/allocator.rs:95-112 | Linking and the two conditional merges together are the insertion of the abstract list. |
| Kalloc.SpanPages | lib/kalloc/src/allocator.rs:77-80 | The page numbers of the ends recover the range that was meant. |
| Kalloc.SizeToPages | lib/kalloc/src/allocator.rs:121-123 | The least number of pages of 4096 bytes that hold the size. |
| Kalloc.PagesExact | lib/kalloc/src/allocator.rs:121-123 | With a wrapping sum the page count is right if and only if the size is not within a page of 2^32, and is zero otherwise. |
| Kalloc.HeapStart | src/lib.rs:72 | The page boundary that lies one to two pages above the end of the kernel image. |
| Kalloc.FarFromSentinel | src/lib.rs:72-74 | A heap that starts above the page after the kernel is never adjacent to the sentinel. |
| Kalloc.ChainFrame | lib/kalloc/src/allocator.rs:65-155 | The list depends on the sentinel and on the contents of free pages only. |
| Kalloc.VerifiedIff | lib/kalloc/src/allocator.rs:162-183 | What `verify` compares between neighbours holds if and only if the list is canonical, inside memory and of the recorded length. |
| Kalloc.Allocator.Verify | lib/kalloc/src/allocator.rs:162-183 | The checks pass if and only if the list is in order, has gaps, lies in memory and has the recorded length. |
| Kalloc.Allocator.LinkAt | lib/kalloc/src/allocator.rs:96-97 | Two header writes link the new range in at its position. |
| Kalloc.Allocator.MergeAfter | lib/kalloc/src/allocator.rs:99-105 | A range is joined with the next exactly if it ends where that begins. |
| Kalloc.Allocator.InsertAt | lib/kalloc/src/allocator.rs:95-113 | On the headers in memory, linking and merging give the inserted list and write three headers at most. |
| Kalloc.Allocator.FreeRange | lib/kalloc/src/allocator.rs:65-119 | The list becomes the insertion of the span, stays canonical, and only headers in free pages are written; `verify` passes. |
| Kalloc.Allocator.TakeAt | lib/kalloc/src/allocator.rs:137-149 | Both ways of taking pages give the same abstract result. |
| Kalloc.Allocator.Allocate | lib/kalloc/src/allocator.rs:125-155 | First fit from the end of the range, of as many pages as the bytes need and no more; fails if and only if no run of enough free pages exists anywhere; `verify` passes. |
| RangeAllocs.AllocationsDisjoint | lib/kalloc/src/lib.rs:35-57 | Outstanding allocations are disjoint from each other and from the free pages, and inside the given regions. |
| RangeAllocs.AllocationHoldsBytes | lib/kalloc/src/lib.rs:35-57 | Every byte of an outstanding allocation lies in a page that belongs to it alone. |
| RangeAllocs.PagesConserved | lib/kalloc/src/lib.rs:21-57 | The recorded free pages and the outstanding pages add up to all pages given to `init`. |
| RangeAllocs.HeadersStayFree | lib/kalloc/src/lib.rs:35-57 | The allocator writes into no page of an outstanding allocation. |
| RangeAllocs.ClientWrites | lib/kalloc/src/lib.rs:35-57 | Whatever the holders of allocations write into them, the free list stays intact. |
| RangeAllocs.DeallocOrderIrrelevant | lib/kalloc/src/lib.rs:44-57 | Giving back the same outstanding allocations in any order leaves the same list. |
| RangeAllocs.RangeAlloc.Init | lib/kalloc/src/lib.rs:22-24 | A new region is added to the free list and to the account. |
| RangeAllocs.RangeAlloc.Alloc | lib/kalloc/src/lib.rs:36-42 | A page-aligned span of free pages inside the heap becomes outstanding, or no run is long enough; every byte asked for lies in it, in a page that was free, and less than a page is left over. |
| RangeAllocs.RangeAlloc.Dealloc | lib/kalloc/src/lib.rs:44-57 | The span recomputed from pointer and size is the one allocated, and becomes free: every byte of it lies in a free page afterwards and in no allocation. |
| RangeAllocs.RangeAlloc.DeallocAll | lib/kalloc/src/lib.rs:44-57 | Giving back a list of allocations inserts their ranges one after the other. |
| RangeAllocs.RangeAlloc.AllocThenDealloc | lib/kalloc/src/lib.rs:35-57 | Allocating and freeing again restores the list and its length. |
| PageTables.MakeEntry | src/vm.rs:87-91 | An entry built from an aligned address and flags decodes to both. |
| PageTables.EntryIsPresent | src/vm.rs:197-199 | The flags of a new entry are PRESENT and the permissions asked for. |
| PageTables.AddTable | src/vm.rs:223-228 | A fresh table is found again through its directory entry, which is its physical address plus 7, and maps no page. |
| PageTables.SetPte | src/vm.rs:197-199 | Setting an entry changes the translation of that page only, because no two directory entries share a table. |
| PageTables.ProgressStep | src/vm.rs:191-205 | One more page of a range: mapped, and a table added exactly if its directory entry had none at the start. |
| PageTables.TableMissing | src/vm.rs:192 | A page that lacks a table when memory is used up shows that the range needs more tables than there were pages. |
| PageTables.MappedAccess | src/vm.rs:191-205 | An address in a mapped range goes to its frame, is writable if and only if the permission has bit 1, and open to user mode if and only if it has bit 2. |
| Vm.OnePage | lib/kalloc/src/allocator.rs:125-155 | A single page can be allocated exactly when the length is not zero. |
| Vm.PageMap.TablesInUse | src/vm.rs:223-228 | Directory and tables lie in allocated pages, into which the allocator never writes. |
| Vm.PageMap.WalkPgDir | src/vm.rs:211-237 | Returns the table of the address, allocating a fresh page for it if absent with a directory entry of its physical address plus 7, and changes no translation and no page in use. |
| Vm.PageMap.MapPage | src/vm.rs:192-199 | Maps one page, or reports a page already mapped or no memory, changing nothing then. |
| Vm.PageMap.MapPages | src/vm.rs:182-208 | From the page of the address, aligned or not, maps the pages of the range in order with the access asked for and one table per absent directory entry, up to the first page that is mapped already or lacks memory; gets to the end if and only if the range is unmapped and enough pages are free. |
| KernelMaps.RegionSize | src/vm.rs:20-53 | The four sizes, the last from a wrapping subtraction, are positive and do not overflow. |
| KernelMaps.RegionTables | src/vm.rs:150-167 | How many tables each region still needs. |
| KernelMaps.MapRegion | src/vm.rs:158-164 | One region of the kernel map: mapped exactly when the tables it still needs can be allocated, on top of the regions before it. |
| KernelMaps.KernelMapExact | src/vm.rs:20-53 | Walking tables that hold the four regions translates every address as intended, maps nothing else and lets user mode in nowhere. |
| KernelMaps.SetupKvm | src/vm.rs:150-167 | Succeeds if and only if 65 pages are free, never maps a page twice, uses 64 tables, and gives every address its kernel translation. |
| KernelMaps.Boot | src/lib.rs:71-92 | The boot sequence succeeds exactly when the kernel image leaves 65 pages below 0x80400000; afterwards the allocator has all memory up to 0x8E000000. |
| Spinlock.RunInv | lib/spinlock/src/lib.rs:35-84 | The invariant holds in every state of every run, with handlers between any two micro-steps. |
| Spinlock.LockSafety | lib/spinlock/src/lib.rs:35-84 | Interrupts on means count zero and no lock held; handlers do not nest; the count does not underflow; a lock is found taken only by the code that holds it. |
| Spinlock.EntryStep | lib/spinlock/src/lib.rs:40-82 | No step changes the flag on record for a busy frame, and the step that frees it restores that flag. |
| Spinlock.EntryKept | lib/spinlock/src/lib.rs:40-45 | The flag at the outermost `lock()` stays on record whatever handlers do. |
| Spinlock.FlagRestored | lib/spinlock/src/lib.rs:40-82 | When the code that took the outermost lock has dropped all guards in any order, the flag is what it was at that `lock()`. |
| Spinlock.Cpu.LockNow | lib/spinlock/src/lib.rs:35-49 | Undisturbed, `lock()` of a mutex not held ends within six steps, holding it with interrupts off and the right flag saved. |
| Spinlock.Cpu.DropNow | lib/spinlock/src/lib.rs:71-84 | Undisturbed, `drop()` ends within five steps and enables interrupts exactly after the last guard, if they were wanted. |
| Spinlock.HandlerInWindow | lib/spinlock/src/lib.rs:40-45 | A run in which a handler overwrites INT_ENABLED between the flag read and the disable, and interrupts still end up enabled again. |

## Left out

- Crash consistency and disk errors: every disk operation succeeds, so `DiskFault` does not occur.
- SimpleFs.FileSystem.FreeBlock: block 0, the superblock, is excluded; the invariant is stated for a block that its holder gives back.
- SimpleFs.FileSystem.AllocInode: consistency is stated for a new inode that maps no block, which is how every caller uses it; what is written is stated for all.
- Mkfs.Mkfs: a disk whose old superblock puts the inode table past its end is not modelled.
- Kalloc.Allocator.Allocate: a size within a page of 2^32 is excluded, because the page count overflows and the kernel panics; Kalloc.PagesExact has the condition.
- RangeAllocs.RangeAlloc.Alloc: excludes the same sizes as Kalloc.Allocator.Allocate.
- Vm.PageMap.MapPages: a page-aligned physical address, a positive size and a range that does not wrap are preconditions, as in every call.
- `free_inode` and `SimpleFile::write`: unimplemented in the source.
- Zero-size allocations, which the allocator interface forbids.
- `usable_size`, `seginit`, `switchkvm` and the register wrappers: they load processor registers or rescale one number and keep no state of their own.
- `spin::Mutex` itself: the inner lock is a set of held mutexes; one processor, no exceptions or non-maskable interrupts, and not the panic path that overrides the locks.
- The device drivers, the boot loader, logging, the console and the network service.
