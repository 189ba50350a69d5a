# A verified model of a Pintos kernel

This project models the storage stack, the allocators, the synchronisation
primitives, the kernel's containers, its arithmetic and printing routines, and
its address-space code, and proves what each of them is for. Code that updates
things in place is a class or a method over arrays and fields, proved against a
function on plain values; the laws are then lemmas about those functions, over
all inputs, all reachable states or all interleavings.

## Parts

- Storage: `Blocks`, `FileData`, `Inodes`, `Volumes`, `Allocation` describe
  sectors, inodes, the free map and allocation as functions; `FileSystem`,
  `FileRuns`, `FileOpeners`, `FileConservation` and `FileFormat` state the ownership invariant
  and prove it over whole runs, from a freshly formatted disk on. `BufferCache`,
  `CacheUse`, `Bitmaps`, `InodeOps` and `OpenTable` are the code as it runs, and
  `Mounts` joins the two: the running state is a state of the machine, and each
  call is its step, with its reply.
- Allocators: `Palloc` hands out pages, `Malloc` cuts them into blocks.
- Synchronisation: `Semaphores` and `Monitors` are step machines, and `Progress`
  says that threads get on. A step is what
  the kernel does with interrupts off, or one plain statement between two such
  sections; any number of threads interleave between steps.
- Containers: `MergeSort` (sequences) and `Lists` (linked nodes), `BitAnd` and
  `HashTables`.
- Algorithms: `Arithmetic`; `Heaps` (sequences) and `HeapSort` (bytes);
  `Numerals`, `Fields`, `Print` and `Formats`.
- Address spaces: `PageTables`, `PageDirs`, `Loader`, `ArgStack`.
- `Basics` holds what several of them share.

## Conventions

- Memory that may or may not be had, clock ticks and frames are parameters or
  arbitrary values.
- Machine words are naturals or bit-vectors with their width written out; every
  operation that can wrap is written with its modulus.
- A list, dictionary or free list that the kernel keeps as linked nodes is a
  sequence field, except in `Lists`, which has the nodes and their pointers.

## Where the code and its documentation differ

The model follows the code.

- `inode_write_at` grows a file only when the last byte lies at least two bytes
  past the end: a write that ends one byte past it loses that byte
  (`FileSystem.WrittenAsExpected` gives the exact condition).
- `inode_close` is said to free the blocks of a removed file; the index sector
  stays marked (`FileConservation.Conservation`).
- A growth that fails has used up the disk and keeps what it took
  (`FileConservation.FailedGrowthFillsDisk`).
- The cache is said to evict the least recently used slot, but reads do not set
  the access time: the sector just read in on a miss is the next to be evicted
  (`CacheUse.ReadMissNext`), and a read hit can spoil an eviction many requests
  later (`CacheUse.DisagreesFails`). `CacheUse.RunLru` gives the exact condition
  over whole runs, `CacheUse.NextVictimLru` that for one request.
- `setup_stack` does not check that the arguments fit in the stack's page
  (`ArgStack.FitsExactly`; `ArgStack.LongLineFails` is a line that does not).
- `malloc` is said to return at least the bytes asked for; sizes above
  2^32 - 12 wrap around (`Malloc.BigEnough`).
- In printf the minus flag overrides the zero flag, except that a negative width
  argument sets minus beside zero, and then the field is padded twice
  (`Fields.BothPads`; `Fields.FieldWidth` gives the exact condition).
- The remainder functions return 32 bits of a 64-bit remainder
  (`Arithmetic.UmodExact`, `Arithmetic.SmodExact`).

## Model

| member | source | states |
|---|---|---|
| `FileRuns.RunRefines` | src/filesys/inode.c:91-368 | Over every run of create, open, read, write, remove, close, deny and allow calls in which no allocation runs out of sectors, the file system stays consistent and what users see is what a machine on plain byte sequences computes; so a write to one file never changes another. |
| `FileRuns.RunAnswers` | src/filesys/inode.c:91-368 | Every reply within a run is the byte-sequence machine's: a read returns the slice of what the calls before it have written, cut at the length, a write its count, a create a new number. |
| `FileRuns.RunInv` | src/filesys/inode.c:91-368 | Every state of a run from a consistent state is consistent, so each data or index sector in use is nonzero, marked and owned by one file, and no release hits a free sector. |
| `FileRuns.StepRefines` | src/filesys/inode.c:91-368 | One call keeps the ownership invariant and acts on the byte sequences like the abstract call; a new file gets a number no live file has. |
| `FileRuns.AnswerRefines` | src/filesys/inode.c:225-368 | The reply of one call, the bytes read or the count written, is the byte-sequence machine's, whatever sectors the file lies in. |
| `FileRuns.OpenTableInv` | src/filesys/inode.c:136-220 | Changing only the table of openers keeps the invariant and all contents. |
| `FileRuns.ReopenInv` | src/filesys/inode.c:171-220 | Open, remove, deny, allow and every close that does not delete keep the invariant and all contents. |
| `FileOpeners.RunTallies` | src/filesys/inode.c:135-220 | Over every run and for every file: its openers are its openings less its closings, and it is in the table exactly when there are any; its writes are denied as often as denied less allowed since it was last opened from zero; it is marked removed exactly when it has been removed since then. |
| `FileOpeners.FileGoes` | src/filesys/inode.c:188-211 | A file goes away at a call if and only if that call is the close that brings its openers to zero and it has been removed since it was last opened from zero. |
| `FileOpeners.FileComes` | src/filesys/inode.c:91-130 | A file comes at a call if and only if that call creates it. |
| `FileOpeners.DeniedWrites` | src/filesys/inode.c:294-295 | While a denial is outstanding a write changes nothing and returns 0. |
| `FileOpeners.StepKinds` | src/filesys/inode.c:108-110 | A new inode has the kind asked for and the magic number, and no call changes either. |
| `FileOpeners.CallsServed` | src/filesys/inode.c:91-388 | Which calls runs may make in a consistent state: all on files that exist and are open, writes that are not denied exactly when they fit, denials and allowances exactly when the assertions hold. |
| `FileRuns.SliceBytes` | src/filesys/inode.c:225-278 | A read gives as many bytes as were asked for and are there, each from its own place. |
| `FileSystem.WrittenAsExpected` | src/filesys/inode.c:285-368 | A write leaves the old bytes overlaid with the new ones, zeros in the gap, if and only if it does not end exactly one byte past the end (the growth test is `length < pos`); an empty write does so if and only if it starts at most one byte past the end. |
| `FileSystem.ExpectedBytes` | src/filesys/inode.c:285-368 | What a write is expected to leave, byte for byte: the buffer where it lies, the old bytes around it, zeros in a gap. |
| `FileSystem.WriteFileEffect` | src/filesys/inode.c:286-368 | When enough sectors are free, a write touches only the file's own inode and sectors and newly taken ones, its contents become the overlay, and the count returned is the whole size, one less in the off-by-one case. |
| `FileSystem.GrowEffect` | src/filesys/inode.c:298-307 | Growing appends exactly the sectors taken from the free map and extends the contents with zeros. |
| `FileSystem.CopyEffect` | src/filesys/inode.c:310-364 | The copy loop changes only data sectors of the file and overlays its contents. |
| `FileSystem.OthersKept` | src/filesys/inode.c:286-368 | A change confined to free sectors and to one file's sectors leaves every other file's inode, sectors and contents alone. |
| `FileSystem.ChangeInv` | src/filesys/inode.c:91-130 | After creating or changing one file, every sector in use is nonzero, marked, and owned by exactly one file. |
| `FileSystem.WriteInv` | src/filesys/inode.c:286-368 | A write keeps the invariant, changes that one file's contents to the overlay, and no other file. |
| `FileSystem.CreateEffect` | src/filesys/inode.c:91-130 | Creating takes one sector for the inode and the data sectors, all of them free before, and the file reads as zeros. |
| `FileSystem.CreateInv` | src/filesys/inode.c:91-130 | Creating keeps the invariant and adds one file of zeros at a new number. |
| `FileSystem.ReleasedMarked` | src/filesys/inode.c:189-211 | Every sector that the last close releases is marked, released once, and not one of the free map's. |
| `FileSystem.DeleteKeeps` | src/filesys/inode.c:189-211 | Releasing one file's sectors leaves every other file alone. |
| `FileSystem.DeleteInv` | src/filesys/inode.c:189-211 | The last close of a removed file keeps the invariant and takes away exactly that file. |
| `FileConservation.Conservation` | src/filesys/inode.c:550-592 | Creating a file, any writes, removal and the last close give the free map back exactly if and only if the file ended with at most 123 sectors; otherwise exactly one sector, its index sector, stays marked. |
| `FileConservation.LifeOwners` | src/filesys/inode.c:91-368 | Throughout a file's life the ownership of everything else stays what it was. |
| `FileConservation.DeleteOwners` | src/filesys/inode.c:550-592 | Deleting frees all sectors of the file except an index sector. |
| `FileConservation.MapFromOwners` | src/filesys/free-map.c:27-53 | Consistent states with the same owned sectors have the same free map. |
| `FileConservation.FailedGrowthFillsDisk` | src/filesys/inode.c:397-479 | A growth that fails has taken every free sector and gives none back; the map is unchanged exactly when the disk was already full. |
| `FileFormat.FormatInv` | src/filesys/filesys.c:138-146 | For every disk that can be formatted and every first entry that dir_create may write (its own sector number and 16 arbitrary bytes), the formatted disk is consistent, no file is open but the map's, and the root directory is that entry followed by zeros, 320 bytes in all; this is where runs start. |
| `FileFormat.MapFileCreated` | src/filesys/free-map.c:76-88 | Creating the free map's file leaves sectors 0 and 1 and that file's sectors marked, nothing else, and the file in step with the map. |
| `FileFormat.CreateInodeEffect` | src/filesys/inode.c:91-130 | inode_create on a marked sector takes exactly the sectors the length needs. |
| `FileFormat.RootCreated` | src/filesys/directory.c:67-72 | The root directory's file is created at sector 1 and keeps the invariant. |
| `FileFormat.RootMadeInv` | src/filesys/directory.c:72-74 | After inode_create the root directory is 320 zero bytes and the state is consistent. |
| `FileFormat.EntrySteps` | src/filesys/directory.c:72-84 | dir_create's open, write and close are served, the write returns all 20 bytes, and they leave the directory overlaid with the entry. |
| `Allocation.AllocInodeGrows` | src/filesys/inode.c:397-479 | When it succeeds, inode_disk_allocate extends a well-formed file with zeros through the direct and the index table, owning its old sectors followed by the new ones, and touches nothing else. |
| `Allocation.AllocInodeSucceeds` | src/filesys/inode.c:397-479 | It succeeds exactly when the free sectors suffice, the index sector included. |
| `Allocation.AllocTableTakes` | src/filesys/inode.c:397-432 | On a table filled from the front the loop takes exactly the missing sectors and lays them in order. |
| `Allocation.TakeZeroedEffect` | src/filesys/inode.c:397-432 | Taking sectors one by one takes free ones only, clears them, and falls short only when none is free. |
| `Allocation.GrowDirect` | src/filesys/inode.c:397-415 | Growth within the direct table. |
| `Allocation.GrowIndirect` | src/filesys/inode.c:434-479 | Growth within the index sector. |
| `Allocation.GrowIntoIndirect` | src/filesys/inode.c:397-479 | Growth that fills the direct table and takes a new index sector. |
| `Allocation.FillIndirectOk` | src/filesys/inode.c:434-479 | The index sector ends up holding the old entries followed by the new ones. |
| `Allocation.ReleaseAllEffect` | src/filesys/inode.c:550-592 | Releasing a list of marked sectors clears exactly those bits and changes only the map's own sectors on disk. |
| `Volumes.TakeSectorEffect` | src/filesys/free-map.c:27-44 | A sector is taken only if it was free, is never sector 0 or one of the map's, and the map's file is brought in step. |
| `Volumes.ReleaseEffect` | src/filesys/free-map.c:48-53 | Releasing clears one bit and brings the map's file in step. |
| `Volumes.PersistEffect` | src/lib/kernel/bitmap.c:357-361 | Writing the map back touches only its file's sectors and leaves that file holding the map. |
| `Inodes.InodeRoundTrip` | src/filesys/inode.h:20-29 | Reading back a stored inode gives the same inode. |
| `Inodes.InodeLayout` | src/filesys/inode.h:20-29 | Each field of the inode lies in its own word of the sector. |
| `Inodes.FileFrame` | src/filesys/inode.c:34-73 | If no sector a file owns changes, its table and contents do not. |
| `Inodes.OverwriteKeepsFile` | src/filesys/inode.c:310-364 | Writing within the length keeps the file well formed, the zeros behind its end included, and its table where it was. |
| `FileData.OverwriteOverlays` | src/filesys/inode.c:310-364 | Reading after the copy loop gives the old bytes overlaid with the new. |
| `FileData.WriteFromCell` | src/filesys/inode.c:310-364 | The chunked loop changes exactly the requested bytes, each to its own value. |
| `FileData.OverwriteFrame` | src/filesys/inode.c:310-364 | The loop touches no sector outside the file's table. |
| `Blocks.DecodeEncode` | src/filesys/inode.h:31-34 | A table of sector numbers survives being stored in a sector. |
| `Blocks.EncodeDecode` | src/filesys/inode.h:31-34 | A sector survives being read as a table. |
| `Blocks.LowestByteFirst` | src/filesys/inode.h:31-34 | Words are stored with the lowest byte first. |
| `InodeOps.Store.ByteToSector` | src/filesys/inode.c:33-73 | Gives -1, as a 32-bit sector number, when the length is less than the position, and otherwise the sector found through the direct, index or doubly indirect table. |
| `InodeOps.LastSector` | src/filesys/inode.c:298-300 | No sector number that inode_write_at finds is -1: it is that of a sector on the disk, even for the byte just past a file that fills its last sector, so the comparison means that the file must grow. |
| `InodeOps.Store.ReadAt` | src/filesys/inode.c:225-278 | Returns exactly the bytes of the file's contents from the offset on, cut at the length, and changes nothing; ReadLocated gives what it requires. |
| `InodeOps.Store.WriteAt` | src/filesys/inode.c:285-368 | The cache, bitmap and inode end up as the function WriteFile says, growth, failure and the returned count included; a denied write does nothing. |
| `InodeOps.Store.CopyIn` | src/filesys/inode.c:310-364 | The loop with its bounce buffer is the chunked overwrite of the flat disk. |
| `InodeOps.Store.WriteSector` | src/filesys/inode.c:328-358 | A whole or partial sector is patched into the flat disk. |
| `InodeOps.Store.WriteBackMap` | src/lib/kernel/bitmap.c:357-361 | The map's bytes go to the map's file. |
| `InodeOps.Store.FreeMapAllocate` | src/filesys/free-map.c:26-44 | Takes the first free sector and writes the map back, or fails and changes nothing. |
| `InodeOps.Store.FreeMapRelease` | src/filesys/free-map.c:47-53 | Clears the sector's bit and writes the map back. |
| `InodeOps.Store.TakeZeroSector` | src/filesys/inode.c:404-412 | Takes a sector and fills it with zeros. |
| `InodeOps.Store.FillTable` | src/filesys/inode.c:462-476 | The loop over the index sector's entries is AllocTable. |
| `InodeOps.Store.IndirectAlloc` | src/filesys/inode.c:434-479 | inode_indirect_alloc at level 0 is AllocIndirect, failures included. |
| `InodeOps.Store.DiskAllocate` | src/filesys/inode.c:397-432 | inode_disk_allocate is AllocInode, failures included. |
| `InodeOps.Store.Create` | src/filesys/inode.c:91-130 | inode_create is CreateInode; it fails and changes nothing when there is no memory. |
| `InodeOps.Store.DiskFree` | src/filesys/inode.c:550-592 | Releases the file's data sectors in order; the index sector is not released. |
| `InodeOps.Store.ReleaseInode` | src/filesys/inode.c:202-207 | Releases the inode's sector and then the data sectors. |
| `InodeOps.FreeMapInit` | src/filesys/free-map.c:12-20 | A new map has exactly sectors 0 and 1 marked. |
| `InodeOps.WriteTurn` | src/filesys/inode.c:310-364 | One turn of the loop followed by the rest is the whole loop. |
| `OpenTable.InodeTable.OpenAt` | src/filesys/inode.c:135-167 | An open inode is shared and has one opener more; otherwise a new one with the stored inode and one opener is put at the front, or null is returned, and nothing changes, when there is no memory for it. |
| `OpenTable.InodeTable.FindOpen` | src/filesys/inode.c:141-151 | Finds the open inode of a sector exactly when there is one. |
| `OpenTable.InodeTable.Reopen` | src/filesys/inode.c:170-176 | The inode has exactly one opener more. |
| `OpenTable.InodeTable.MarkRemoved` | src/filesys/inode.c:215-220 | Marks the inode and nothing else. |
| `OpenTable.InodeTable.Deny` | src/filesys/inode.c:372-377 | Counts one more denial. |
| `OpenTable.InodeTable.Allow` | src/filesys/inode.c:382-388 | Counts one denial less. |
| `OpenTable.InodeTable.CloseInode` | src/filesys/inode.c:188-211 | The inode has one opener less and stays listed while there are any; the volume changes, by the release of the file's sectors, exactly when the last opener of a removed inode closes. |
| `Mounts.Mount.Read` | src/filesys/inode.c:225-278 | On the running file system, a read of any open file, the largest included, returns exactly the slice of that file's bytes in the abstract machine, and no state changes. |
| `Mounts.Mount.Write` | src/filesys/inode.c:285-368 | The cache, bitmap and in-memory inodes together make the machine's write step, with its count. |
| `Mounts.Mount.Open` | src/filesys/inode.c:135-167 | They make the open step, since the inode read back from its sector is the one stored; null exactly when a new inode is needed and there is no memory, and then nothing changes. |
| `Mounts.Mount.Close` | src/filesys/inode.c:188-211 | They make the close step; in a consistent state every release hits a marked sector. |
| `Mounts.Mount.Create` | src/filesys/filesys.c:54-72 | They make the create step and return its number. |
| `Mounts.Mount.Remove` | src/filesys/inode.c:215-220 | They make the remove step. |
| `Mounts.Mount.Deny` | src/filesys/inode.c:372-377 | They make the deny step. |
| `Mounts.Mount.Allow` | src/filesys/inode.c:382-388 | They make the allow step. |
| `Mounts.ReadLocated` | src/filesys/inode.c:34-73 | In a consistent file system the sectors byte_to_sector looks at exist, even at the end of a file of 251 sectors, where it follows the doubly indirect entry to the free map's inode. |
| `Mounts.MapSector` | src/filesys/inode.c:34-73 | Read as a table, sector 0 starts with the free map's first sector, which is on the disk. |
| `Mounts.StoredInode` | src/filesys/inode.c:155-166 | The sector of a live file decodes to its inode. |
| `Mounts.AllocateAndCreate` | src/filesys/filesys.c:54-72 | free_map_allocate, inode_create and the release on failure compute CreateFile, failures included; without memory the free map is as before. |
| `Mounts.FailedCreateMarks` | src/filesys/inode.c:397-479 | When inode_create fails every sector is marked, so the release that follows hits a marked one. |
| `Mounts.Format` | src/filesys/filesys.c:21-39 | Formatting any disk that can be formatted succeeds, and after free_map_close and free_map_open the running file system is in the formatted state, with the map read back from its file. |
| `Mounts.Remount` | src/filesys/filesys.c:21-48 | After filesys_done and filesys_init on the same disk, with a new cache and everything in memory built from the disk, every file has the same contents and nothing is open. |
| `Mounts.DoFormat` | src/filesys/filesys.c:137-146 | do_format up to free_map_close gives the formatted state, and dir_create returns true. |
| `Mounts.Reopen` | src/filesys/free-map.c:55-71 | Closing and opening the free map keeps every file. |
| `Mounts.FreeMapOpen` | src/filesys/free-map.c:55-64 | Whatever the bitmap in memory held, it becomes the one in the free map's file, and the file system is consistent with it. |
| `Mounts.FreeMapClose` | src/filesys/free-map.c:66-71 | The free map's inode leaves the list and nothing reaches the disk. |
| `Mounts.ReadMap` | src/lib/kernel/bitmap.c:341-352 | bitmap_read from the free map's file gives exactly the sectors in use. |
| `Mounts.RemountedInv` | src/filesys/filesys.c:21-48 | Mounting again keeps the invariant and all files. |
| `Mounts.CreateFreeMap` | src/filesys/free-map.c:12-20 | The free map is made, its file created, opened and written. |
| `Mounts.OpenMapFile` | src/filesys/free-map.c:76-88 | inode_create and inode_open of the free map's file; the inode in memory is the one on disk. |
| `Mounts.CreateRoot` | src/filesys/directory.c:72-74 | Then inode_create of the root directory gives the state of RootMade. |
| `BufferCache.Serve` | src/filesys/cache.c:78-163 | Any sequence of reads, writes and flushes through the 64 slots gives the answers of a flat disk, and after the final flush the device holds that disk. |
| `BufferCache.Cache.Read` | src/filesys/cache.c:132-163 | Returns the last value written to the sector; no sector's contents change, one slot serves the request and no access time changes. |
| `BufferCache.Cache.Write` | src/filesys/cache.c:103-130 | Changes the sector's contents and no other, and the access time of the slot that serves the request and no other. |
| `BufferCache.Cache.Fetch` | src/filesys/cache.c:103-163 | A miss evicts and loads without changing what readers see; a hit changes nothing. |
| `BufferCache.Cache.LruEviction` | src/filesys/cache.c:35-64 | Chooses the first unused slot, or else the first with the oldest time, and leaves it clean, keeping what readers see. |
| `BufferCache.Cache.Flush` | src/filesys/cache.c:66-76 | Writes a dirty slot to its sector and cleans it. |
| `BufferCache.Cache.FlushAll` | src/filesys/cache.c:78-88 | Afterwards the disk itself is what readers see. |
| `BufferCache.Cache.FindSlot` | src/filesys/cache.c:90-101 | Finds the used slot of a sector, or -1 exactly when there is none. |
| `BufferCache.StoreHit` | src/filesys/cache.c:126-128 | Storing in a sector's slot changes that sector of the flat disk alone. |
| `BufferCache.Refill` | src/filesys/cache.c:109-122 | Loading an uncached sector into a clean slot changes nothing a reader sees, and no sector gets two slots. |
| `BufferCache.WriteBack` | src/filesys/cache.c:66-76 | Writing back changes nothing a reader sees. |
| `BufferCache.LookupHit` | src/filesys/cache.c:90-101 | In a coherent cache a used slot is the only answer for its sector. |
| `BufferCache.CleanView` | src/filesys/cache.c:78-88 | Without dirty slots the disk is what readers see. |
| `CacheUse.RunLru` | src/filesys/cache.c:35-163 | Over every run of reads and writes from any full cache: every victim, in the run and under any further writes from any of its states, is the least recently used slot if and only if the order of access times agreed with that of last uses at the start and every read was served by the slot last in that order, or by one behind which all slots were used in the same tick. Equal access times are ordered by position, as the code does. |
| `CacheUse.AgreesExactly` | src/filesys/cache.c:35-64 | In a full cache the victim is the least recently used slot, now and however the cache is written next, if and only if the order of access times agrees with the order of last uses. |
| `CacheUse.StepAgrees` | src/filesys/cache.c:103-163 | A request keeps that agreement if and only if it is a write or such a read. |
| `CacheUse.RunAgrees` | src/filesys/cache.c:103-163 | Over any run it holds throughout if and only if every request keeps it. |
| `CacheUse.KeptLru` | src/filesys/cache.c:35-163 | In a run whose reads all keep it, every victim is the least recently used slot. |
| `CacheUse.DisagreesFails` | src/filesys/cache.c:35-163 | Wherever it fails, some writes lead to a victim that is not the least recently used slot: a read hit can spoil an eviction many requests later. |
| `CacheUse.AgreesVictim` | src/filesys/cache.c:35-64 | When it holds, the victim is the least recently used slot. |
| `CacheUse.NextVictimLru` | src/filesys/cache.c:35-163 | For every full cache and every request, hit or miss: the next victim is the least recently used slot if and only if no slot but the one that served the request was used before the victim's last use. |
| `CacheUse.ReadMissNext` | src/filesys/cache.c:132-163 | In a full cache a read of an uncached sector makes its slot the most recently used one and the next to be evicted. |
| `CacheUse.ReadNext` | src/filesys/cache.c:132-163 | A read leaves the victim the same slot; if that was the least recently used one, it still is exactly when another slot served the read. |
| `CacheUse.ReadsShareSlot` | src/filesys/cache.c:132-163 | In any run of reads through a full cache all misses go through one slot and the other 63 keep what they held. |
| `CacheUse.UnreadVictim` | src/filesys/cache.c:35-64 | A victim not read since it was written is the least recently used slot. |
| `CacheUse.WriteKeeps` | src/filesys/cache.c:103-130 | Writes keep the access times equal to the times of last use. |
| `CacheUse.UsedCache.Read` | src/filesys/cache.c:132-163 | The cache's read is one step of such a run, with the time of last use kept per slot. |
| `CacheUse.UsedCache.Write` | src/filesys/cache.c:103-130 | So is its write. |
| `Bitmaps.SetOneBit` | src/lib/kernel/bitmap.c:35-47 | Marking or resetting a packed bit changes that bit alone. |
| `Bitmaps.Bitmap.BitSet` | src/lib/kernel/bitmap.c:145-154 | The boolean sequence changes at one index. |
| `Bitmaps.Bitmap.BitTest` | src/lib/kernel/bitmap.c:198-204 | Answers the bit of the sequence. |
| `Bitmaps.Bitmap.SetMultiple` | src/lib/kernel/bitmap.c:218-229 | Sets exactly the bits of the range. |
| `Bitmaps.Bitmap.Contains` | src/lib/kernel/bitmap.c:251-264 | True exactly when some bit of the range has the value. |
| `Bitmaps.Bitmap.Scan` | src/lib/kernel/bitmap.c:296-311 | The least start of a fitting run, or the error value exactly when no run exists. |
| `Bitmaps.Bitmap.ScanAndFlip` | src/lib/kernel/bitmap.c:320-327 | Flips exactly the run that the scan finds, or nothing. |
| `Bitmaps.Bitmap.Bytes` | src/lib/kernel/bitmap.c:357-361 | The words in memory are the bytes of the map. |
| `Bitmaps.Bitmap.ReadBytes` | src/lib/kernel/bitmap.c:341-352 | The map holds the bits of the bytes read, and the bits past its end are cleared. |
| `Bitmaps.ImageDetermines` | src/lib/kernel/bitmap.c:341-361 | Different maps give different bytes, so the file determines the map. |
| `Bitmaps.BitsOfImage` | src/lib/kernel/bitmap.c:341-361 | Reading the bytes of a map gives the map back. |
| `Bitmaps.PackLast` | src/lib/kernel/bitmap.c:41-47 | Bit k of a byte weighs 2^k. |
| `Bitmaps.MaskLast` | src/lib/kernel/bitmap.c:64-70 | Masking the last word clears exactly the bits past the end. |
| `Palloc.Pool.GetMultiple` | src/threads/palloc.c:77-108 | The first run of free pages, or none exactly when no run fits; live ranges stay apart. |
| `Palloc.Pool.FreeMultiple` | src/threads/palloc.c:124-149 | Frees any pages that are all in use, a whole live range or part of some: exactly those bits are cleared, and live ranges keep what lies before and after. |
| `Palloc.Pool.constructor` | src/threads/palloc.c:160-177 | The bitmap lies in the pool's first pages, as many as it needs, and all other pages are free. |
| `Palloc.LiveTaken` | src/threads/palloc.c:77-108 | Taking a free run keeps live ranges disjoint and exactly what the bitmap marks. |
| `Palloc.LiveFreed` | src/threads/palloc.c:124-149 | So does freeing one, whose pages were all marked. |
| `Palloc.LiveCut` | src/threads/palloc.c:124-149 | So does freeing any marked pages, which cuts the ranges they lie in. |
| `Palloc.CutWhole` | src/threads/palloc.c:124-149 | Freeing one whole live range takes that range away. |
| `Palloc.TakeFreeRestores` | src/threads/palloc.c:77-149 | Freeing what was just taken restores the live ranges and the bitmap. |
| `Palloc.LiveDetermines` | src/threads/palloc.c:77-149 | The live ranges determine the bitmap, so any calls that return to the same live ranges restore it. |
| `Palloc.PageAllocator.constructor` | src/threads/palloc.c:48-69 | The free pages are split into a kernel and a user pool that do not overlap; the user pool gets half of them, or the limit if that is less. |
| `Palloc.PageAllocator.GetMultiple` | src/threads/palloc.c:77-108 | Pages handed out were in use in neither pool; none exactly when no pages are asked for or the pool has no run that long. |
| `Palloc.PageAllocator.PageFromPool` | src/threads/palloc.c:181-189 | True exactly for the pool's pages. |
| `Palloc.PageAllocator.FreeMultiple` | src/threads/palloc.c:124-149 | The page number alone finds the right pool, and exactly the pages given leave its live ranges. |
| `Malloc.Heap.Alloc` | src/threads/malloc.c:89-154 | Fails exactly for size 0 or when neither a block nor a page is to be had, and then changes nothing; otherwise the block was not live, comes from the smallest sufficient descriptor or whole pages, no live block moves, and the heap's invariant holds: each free_cnt is the number of the arena's listed blocks, every place is free or live, and blocks are as large as asked whenever the size and a header fit in 32 bits. |
| `Malloc.Heap.AllocBlock` | src/threads/malloc.c:122-153 | The same from one descriptor, making an arena only when its list is empty. |
| `Malloc.Heap.AllocPages` | src/threads/malloc.c:105-120 | The same for a run of whole pages. |
| `Malloc.Heap.Free` | src/threads/malloc.c:218-264 | The block is no longer live, nothing else moves, and its page or pages go back exactly when no other block of the page is live. |
| `Malloc.Heap.FreeBlock` | src/threads/malloc.c:227-256 | The same for a block of a page of blocks; freeing the last one takes all the page's blocks off the list. |
| `Malloc.Heap.FreePages` | src/threads/malloc.c:257-262 | The same for a run of pages. |
| `Malloc.Heap.Realloc` | src/threads/malloc.c:194-214 | The old block, if one is given, is live no more exactly when the new one is, or when the size is 0; without one it is malloc. |
| `Malloc.Heap.UnlinkBlocks` | src/threads/malloc.c:247-251 | Exactly the page's blocks leave the list. |
| `Malloc.Heap.FillArena` | src/threads/malloc.c:137-145 | All blocks of the new page are listed, in order. |
| `Malloc.Heap.TakeFirst` | src/threads/malloc.c:148-151 | The first block leaves the list and its arena's count goes down by one. |
| `Malloc.Heap.FindDesc` | src/threads/malloc.c:100-104 | The smallest descriptor that suffices. |
| `Malloc.Heap.constructor` | src/threads/malloc.c:71-85 | Seven descriptors, from 16 to 1024 bytes, with empty lists. |
| `Malloc.LiveDisjoint` | src/threads/malloc.c:284-294 | Live blocks, small or big, never overlap. |
| `Malloc.ClearOfHeaders` | src/threads/malloc.c:284-294 | No live block touches an arena's header. |
| `Malloc.AddrBack` | src/threads/malloc.c:266-282 | Rounding a block's address down finds its arena, and the alignment assertions of block_to_arena hold. |
| `Malloc.BigEnough` | src/threads/malloc.c:107-120 | A run of pages holds the size asked for if and only if the size plus a header does not exceed 2^32. |
| `Malloc.FewestPages` | src/threads/malloc.c:107-120 | And no page more than needed. |
| `Malloc.BlockSizes` | src/threads/malloc.c:71-85 | The descriptors' sizes double from 16 up to less than half a page. |
| `Malloc.ArenaFull` | src/threads/malloc.c:71-85 | A page has as many blocks as fit behind its header. |
| `Malloc.NewArenaOk` | src/threads/malloc.c:124-146 | A new arena keeps the counts and the partition into free and live blocks. |
| `Malloc.TakeOk` | src/threads/malloc.c:148-151 | So does taking the first listed block, which was not live. |
| `Malloc.GiveOk` | src/threads/malloc.c:238-242 | So does listing a freed block. |
| `Malloc.NoneLive` | src/threads/malloc.c:241-246 | free_cnt never exceeds blocks_per_arena, and equals it exactly when no block of the arena is live. |
| `Malloc.DropOk` | src/threads/malloc.c:242-253 | Giving back a wholly free arena keeps counts and partition. |
| `Malloc.NothingKept` | src/threads/malloc.c:218-264 | When every block has been freed, every page has been given back. |
| `Lists.List.Sort` | src/lib/kernel/list.c:409-448 | The list stays well formed and holds the same nodes, sorted, equivalent ones in their old order, for every strict weak order; the passes end. |
| `Lists.List.MergePass` | src/lib/kernel/list.c:428-443 | One pass is the pairwise merge of the runs, and its count is half the number of runs, rounded up. |
| `Lists.List.MergePair` | src/lib/kernel/list.c:436-442 | Finds the second run and merges it with the first, in place. |
| `Lists.List.InplaceMerge` | src/lib/kernel/list.c:382-407 | In place, the two runs become their stable merge and everything else stays. |
| `Lists.List.FindEndOfRun` | src/lib/kernel/list.c:360-380 | The end of the maximal nondecreasing run. |
| `Lists.List.Splice` | src/lib/kernel/list.c:180-204 | The nodes from first to last move before the given node, in a well-formed doubly linked list. |
| `Lists.List.Insert` | src/lib/kernel/list.c:164-178 | The node comes just before the given one. |
| `Lists.List.Remove` | src/lib/kernel/list.c:256-263 | The node is out, and the one after it is returned. |
| `Lists.List.Reverse` | src/lib/kernel/list.c:332-345 | Exactly the reversed sequence of nodes, well linked. |
| `Lists.List.InsertOrdered` | src/lib/kernel/list.c:450-467 | The node goes before the first one it is less than; in a sorted list that is the stable place. |
| `Lists.List.constructor` | src/lib/kernel/list.c:60-69 | An empty, well-linked list. |
| `MergeSort.PassRuns` | src/lib/kernel/list.c:420-445 | Each pass leaves at most half the maximal runs, rounded up, so sorting ends. |
| `MergeSort.PassStable` | src/lib/kernel/list.c:428-443 | A pass keeps the elements and the order of equivalent ones. |
| `MergeSort.MergeSorted` | src/lib/kernel/list.c:382-407 | Merging two sorted runs gives a sorted one. |
| `MergeSort.MergeClass` | src/lib/kernel/list.c:399-406 | Merging keeps equivalent elements in order, the first run's before the second's. |
| `MergeSort.OneRun` | src/lib/kernel/list.c:445-447 | A sequence is one run exactly when it is sorted. |
| `MergeSort.StableSortUnique` | src/lib/kernel/list.c:409-448 | There is only one stable sort of a sequence, so the contract of Sort determines the result. |
| `MergeSort.InsertedSorted` | src/lib/kernel/list.c:450-467 | Ordered insertion gives the stable sort of the list with the element appended. |
| `Semaphores.NoLostWakeup` | src/threads/synch.c:61-122 | In every interleaving the value is the initial one plus ups minus completed downs, the blocked threads are exactly the listed ones, and when threads wait at least `value` threads have been woken and are about to test again. |
| `Semaphores.SemaFifo` | src/threads/synch.c:61-122 | In every interleaving threads are woken in the order in which they blocked. |
| `Semaphores.TakesUnit` | src/threads/synch.c:61-103 | sema_down by a thread that is not blocked, and sema_try_down, take a unit exactly when there is one. |
| `Semaphores.UpReleases` | src/threads/synch.c:61-122 | After sema_up the thread blocked longest completes its sema_down if it runs next. |
| `Semaphores.DownInv` | src/threads/synch.c:61-77 | One turn of the loop in sema_down keeps all that. |
| `Semaphores.UpInv` | src/threads/synch.c:109-122 | sema_up keeps all that. |
| `Semaphores.Semaphore.Down` | src/threads/synch.c:69-76 | Takes a unit, or joins the end of the waiters. |
| `Semaphores.Semaphore.TryDown` | src/threads/synch.c:84-103 | Takes a unit exactly when there is one, and never waits. |
| `Semaphores.Semaphore.Up` | src/threads/synch.c:109-122 | Wakes the first waiter, if any, and adds a unit. |
| `Monitors.RunInv` | src/threads/synch.c:176-340 | In every interleaving of threads around a lock and its condition variables the whole invariant holds: one owner or one unit, holder right, no lost wake-up, signals in order of arrival, and every wait matched with its own signal. |
| `Monitors.StepInv` | src/threads/synch.c:176-340 | Each step keeps it. |
| `Monitors.StartInv` | src/threads/synch.c:176-183 | A new lock with any threads and condition variables satisfies it. |
| `Monitors.MutualExclusion` | src/threads/synch.c:193-249 | At most one thread is past acquire and before release; holder is that thread from the end of acquire to the start of release and null otherwise, so the assertions that the current thread holds the lock succeed. |
| `Monitors.SleeperHasWaker` | src/threads/synch.c:193-238 | When a thread sleeps on the lock, some thread owns it or has been woken to take it. |
| `Monitors.NeverStuck` | src/threads/synch.c:176-340 | In a reachable state a thread that is not asleep can always take its next step. |
| `Monitors.PostedIsAwake` | src/threads/synch.c:289-304 | A waiter whose signal has been posted is not asleep on it. |
| `Monitors.LockUpInv` | src/threads/synch.c:230-238 | Releasing hands the unit on: when threads wait, one of them is woken. |
| `Monitors.TakeLock` | src/threads/synch.c:193-222 | Acquiring takes the unit or joins the waiters, and keeps the accounting. |
| `Monitors.WaitReturns` | src/threads/synch.c:289-304 | cond_wait returns with the lock held, and by then exactly one signal has taken each of the thread's waits that has returned. |
| `Progress.SignalReturns` | src/threads/synch.c:289-324 | In every reachable state: after cond_signal and lock_release by the thread inside, the thread that has waited longest on the condition returns from cond_wait, holding the lock, in three steps of its own. |
| `Progress.Choices` | src/threads/synch.c:193-340 | A thread without the lock may wait for it or try it; a thread inside may release it, and wait on or signal any condition, waiters or not. |
| `Progress.WaiterReturns` | src/threads/synch.c:289-304 | A waiter whose signal has been posted returns from cond_wait, when the lock is free, in three steps of its own. |
| `Progress.AcquiresAlone` | src/threads/synch.c:193-205 | A thread that wants the lock and is not asleep holds it after two steps of its own, when it is free. |
| `Progress.TryAcquires` | src/threads/synch.c:208-222 | lock_try_acquire takes the unit if and only if there is one, and then the lock is held. |
| `Progress.ReleasesAlone` | src/threads/synch.c:230-238 | lock_release leaves the unit, no holder, and the thread that has waited longest awake. |
| `Progress.SignalPosts` | src/threads/synch.c:313-324 | cond_signal posts the waiter that has waited longest, which is then not asleep. |
| `Progress.LockFifo` | src/threads/synch.c:193-238 | Over every run the lock is handed on in the order in which threads fell asleep on it. |
| `Monitors.OthersKeepOut` | src/threads/synch.c:289-340 | While a thread is inside, no other thread's step changes the holder or any list of waiters. |
| `Monitors.Broadcast` | src/threads/synch.c:332-340 | Whatever runs in between, when cond_broadcast finds the list empty it has taken exactly the threads that were waiting, in order, and when its last signal has returned each of them has been posted. |
| `Monitors.BroadcastRun` | src/threads/synch.c:332-340 | Each turn takes the first waiter off and nothing else changes the list, so the loop ends after as many turns as there were waiters. |
| `Monitors.TakenArePosted` | src/threads/synch.c:313-324 | While a thread is inside, no waiter that was taken is still without its sema_up. |
| `Monitors.CondStep` | src/threads/synch.c:289-324 | Every step keeps the arrivals equal to the signalled threads followed by the waiting ones, and each return matched with a signal. |
| `Arithmetic.Udiv64` | src/lib/arithmetic.c:77-127 | The exact floor quotient for every 64-bit n and nonzero d; the divide instruction never traps. |
| `Arithmetic.DivideSmall` | src/lib/arithmetic.c:106-111 | The case of a divisor below 2^32. |
| `Arithmetic.DivideLarge` | src/lib/arithmetic.c:117-125 | The normalising case with its off-by-one correction. |
| `Arithmetic.Nlz` | src/lib/arithmetic.c:41-73 | The shift that brings the highest one bit to bit 31. |
| `Arithmetic.SmallDivisor` | src/lib/arithmetic.c:82-111 | The low half of the quotient fits in 32 bits and the halves add up. |
| `Arithmetic.EstimateBounds` | src/lib/arithmetic.c:121-124 | Dividing by the scaled divisor is never too low and at most one too high. |
| `Arithmetic.Correct` | src/lib/arithmetic.c:124-124 | The comparison picks the right one of the two candidates, without wrapping. |
| `Arithmetic.Umod64` | src/lib/arithmetic.c:131-135 | The remainder cut to 32 bits. |
| `Arithmetic.UmodExact` | src/lib/arithmetic.c:131-135 | That is the true remainder for every dividend if and only if d is at most 2^32. |
| `Arithmetic.Sdiv64` | src/lib/arithmetic.c:139-146 | Truncating division if and only if it is not the minimum divided by -1, which gives the minimum. |
| `Arithmetic.TruncatesUnique` | src/lib/arithmetic.c:139-146 | There is only one truncating quotient. |
| `Arithmetic.Smod64` | src/lib/arithmetic.c:150-154 | The remainder of truncating division cut to 32 bits. |
| `Arithmetic.SmodExact` | src/lib/arithmetic.c:150-154 | That is the true remainder for every dividend if and only if the divisor is at most 2^31 in size. |
| `HashTables.HashTable.Insert` | src/lib/kernel/hash.c:98-110 | Adds the element exactly when no equal one is there, and otherwise returns that one; the table stays a set keyed by equality, each element in the bucket of its hash, the count exact, the bucket count a power of two of at least 4. |
| `HashTables.HashTable.Replace` | src/lib/kernel/hash.c:114-127 | Afterwards the new element is in, and the equal one, which is returned, is out. |
| `HashTables.HashTable.Find` | src/lib/kernel/hash.c:131-135 | Answers membership: none exactly when no element is equal. |
| `HashTables.HashTable.Delete` | src/lib/kernel/hash.c:144-155 | Removes and returns the equal element, if there is one, and nothing else. |
| `HashTables.HashTable.Rehash` | src/lib/kernel/hash.c:352-414 | Keeps the set; the number of buckets becomes the best one, unless memory is short, and then nothing changes. |
| `HashTables.HashTable.WantedCount` | src/lib/kernel/hash.c:365-373 | The largest power of two not above half the elements, at least 4. |
| `HashTables.HashTable.MoveAll` | src/lib/kernel/hash.c:395-411 | Moving every element loses none and puts each in its new bucket. |
| `HashTables.HashTable.FindElem` | src/lib/kernel/hash.c:315-327 | Finds an equal element of the bucket exactly when there is one. |
| `HashTables.Init` | src/lib/kernel/hash.c:24-42 | Four empty buckets, or failure exactly when there is no memory for them. |
| `HashTables.Cursor.Next` | src/lib/kernel/hash.c:219-236 | Returns the next element in bucket order, or none when all have been returned. |
| `HashTables.VisitAll` | src/lib/kernel/hash.c:183-236 | The iteration idiom visits each element exactly once. |
| `HashTables.PushOk` | src/lib/kernel/hash.c:416-422 | Pushing on the element's bucket adds it. |
| `HashTables.RemoveOk` | src/lib/kernel/hash.c:424-430 | Removing from its bucket takes it out. |
| `HashTables.IndexIsRemainder` | src/lib/kernel/hash.c:305-311 | Masking the hash is the remainder by the number of buckets. |
| `HashTables.TurnOffKeepsLog` | src/lib/kernel/hash.c:329-341 | Turning off the lowest bit of a number that is not a power of two keeps its highest bit. |
| `BitAnd.TurnOffBounds` | src/lib/kernel/hash.c:329-341 | x & (x - 1) is zero exactly for powers of two and never goes below the highest one. |
| `PageDirs.PageDirectory.SetPage` | src/userprog/pagedir.c:98-119 | Exactly that page's entry becomes a present user entry for the frame, and the processor, walking the two levels, sends exactly the page's addresses to the frame, for writing exactly when asked; it fails, changing nothing, exactly when a table is missing and no page is to be had. |
| `PageDirs.PageDirectory.constructor` | src/userprog/pagedir.c:16-23 | A copy of the base page directory is well formed. |
| `PageDirs.EmptyDir` | src/userprog/pagedir.c:16-23 | A directory without entries is well formed and maps nothing. |
| `PageDirs.PageDirectory.GetPage` | src/userprog/pagedir.c:125-137 | The kernel address of what the processor finds at the address, exactly when it finds anything. |
| `PageDirs.PageDirectory.ClearPage` | src/userprog/pagedir.c:143-157 | Only that page loses its present flag, the other bits stay, and the processor no longer finds the page. |
| `PageDirs.PageDirectory.IsSet` | src/userprog/pagedir.c:163-197 | The dirty or accessed flag of the page's entry, false without one. |
| `PageDirs.PageDirectory.SetFlag` | src/userprog/pagedir.c:172-215 | Changes one flag of one page's entry, where there is a table; the accessed and dirty flags do not change what the processor finds. |
| `PageDirs.PageDirectory.LookupPage` | src/userprog/pagedir.c:56-86 | Creating a table on demand changes no entry and aliases no other table. |
| `PageDirs.PageDirectory.FindTable` | src/userprog/pagedir.c:56-86 | The table that holds the entry, or none exactly when there is none. |
| `PageDirs.NewTable` | src/userprog/pagedir.c:69-78 | A zeroed table in place of a missing one leaves every entry as it was. |
| `PageDirs.Translated` | src/threads/pte.h:41-60 | The processor's walk through bits 22 to 31 and 12 to 21 finds the entry that the kernel's functions find. |
| `PageDirs.ThroughNew` | src/threads/pte.h:92-104 | Through a new user entry every address of the page goes to the frame, for writing exactly when writable. |
| `PageDirs.WriteEntry` | src/userprog/pagedir.c:83-86 | Writing one word changes the entry of that page and of no other. |
| `PageDirs.MappedReads` | src/threads/pte.h:92-104 | A page that was mapped reads back as its frame, with its permission, neither accessed nor dirty. |
| `PageTables.IndicesArePage` | src/threads/pte.h:31-39 | The directory and table indices agree exactly for addresses in the same page. |
| `PageTables.IndicesSplit` | src/threads/pte.h:32-39 | The directory index is bits 22 to 31 of an address, the table index bits 12 to 21, the offset bits 0 to 11. |
| `PageTables.PdeRoundTrip` | src/threads/pte.h:70-81 | A directory entry gives back its table. |
| `PageTables.PteRoundTrip` | src/threads/pte.h:83-104 | A user entry gives back its page and has exactly its flags. |
| `PageTables.EntryWords` | src/threads/pte.h:70-104 | A user entry is the frame's physical address plus 5, or 7 when writable; a directory entry the table's plus 7. |
| `PageTables.BitOnly` | src/threads/pte.h:61-68 | Setting or clearing a flag changes that bit only. |
| `PageTables.FlagKeepsPage` | src/threads/pte.h:61-68 | Setting or clearing a flag keeps the frame. |
| `PageTables.RoundDown` | src/threads/vaddr.h:23-41 | Rounding down and the offset make up the address. |
| `PageTables.RoundUp` | src/threads/vaddr.h:33-36 | Rounding up gives the next boundary exactly up to the last boundary, past which it wraps to 0. |
| `HeapSort.Sort` | src/lib/stdlib.c:131-152 | For every count, element size and total preorder the elements end up sorted, none lost, and no byte outside them changes. |
| `HeapSort.BuildHeap` | src/lib/stdlib.c:142-144 | The first loop makes a heap. |
| `HeapSort.Heapify` | src/lib/stdlib.c:93-123 | Floating an element down repairs the heap, reorders only the first cnt elements and touches nothing else. |
| `HeapSort.FindLargest` | src/lib/stdlib.c:103-112 | The largest of a node and its children. |
| `HeapSort.DoSwap` | src/lib/stdlib.c:64-79 | Byte by byte, two elements are exchanged and nothing else. |
| `HeapSort.DoCompare` | src/lib/stdlib.c:81-91 | Compares the two elements' bytes. |
| `HeapSort.BinarySearch` | src/lib/stdlib.c:184-207 | On sorted elements it returns a matching one's offset if and only if one matches. |
| `Heaps.SiftStep` | src/lib/stdlib.c:119-121 | Moving the largest child up moves the hole down. |
| `Heaps.RootLargest` | src/lib/stdlib.c:93-123 | The root of a heap is not below any node. |
| `Heaps.TakeRoot` | src/lib/stdlib.c:146-151 | Exchanging the root with the last node settles one more element. |
| `Numerals.RoundTrip` | src/lib/stdio.c:469-547 | Reading what %d printed gives the number, for every integer and every combination of flags but grouping, width and precision. |
| `Print.PrintParse` | src/lib/stdlib.c:9-41 | So atoi of the output is the original int, INT_MIN included. |
| `Formats.FormatRoundTrip` | src/lib/stdio.c:339-416 | From the format to the int and back: for any flags but grouping in any order, and any width and precision given in the format or as "*" arguments, negative ones included, atoi of the output is the int. |
| `Formats.DirectiveReads` | src/lib/stdio.c:339-460 | Any conversion a programmer can write, with any of the eight length modifiers, is parsed as its flags, width, precision and modifier say, and takes its own arguments and no others. |
| `Formats.ModifierRead` | src/lib/stdio.c:418-457 | Each length modifier is read as its own type. |
| `Formats.NegativeWidth` | src/lib/stdio.c:378-394 | A negative width argument sets the minus flag beside the zero flag. |
| `Formats.SpelledReads` | src/lib/stdio.c:339-460 | Parsing a written conversion gives that conversion. |
| `Formats.Parsing` | src/lib/stdio.c:339-460 | parse_conversion's loops compute flags, width, precision and type as the parsing function says. |
| `Formats.ReadFlags` | src/lib/stdio.c:343-376 | The flags in any order, minus overriding zero and plus overriding space. |
| `Formats.DecimalRead` | src/lib/stdio.c:387-388 | A decimal number is read back, whatever non-digit follows. |
| `Print.FormatInteger` | src/lib/stdio.c:469-547 | Outputs exactly Rendered, whose shape FieldShape, FieldWidth, NumberShape and GroupedDigits give. |
| `Fields.FieldShape` | src/lib/stdio.c:482-546 | For every base, conversion, value and sign: spaces in front by default, spaces behind with the minus flag, zeros between head and digits with the zero flag, and with both flags zeros and spaces. |
| `Fields.FieldWidth` | src/lib/stdio.c:527-546 | The output is as wide as asked for, or as it must be, if and only if the minus and zero flags do not meet where padding is needed. |
| `Fields.BothPads` | src/lib/stdio.c:378-394 | "%0*d" with width -5 of 42 gives "00042" and three spaces, eight characters. |
| `Fields.PrintedField` | src/lib/stdio.c:339-546 | Which flag character, width and precision bring about which output, for every %d conversion and every int. |
| `Fields.NumberShape` | src/lib/stdio.c:502-525 | The digits are those of the value behind zeros up to the precision, 63 at most, with a zero in front for "#" in octal. |
| `Fields.DigitCount` | src/lib/stdio.c:506-513 | There are as many digits as the value takes, and no more. |
| `Fields.GroupedDigits` | src/lib/stdio.c:506-513 | With grouping, a number of more than one group is its lowest group, a comma and the rest grouped the same way. |
| `Fields.DigitChars` | src/lib/stdio.c:138-141 | The digit characters of each base. |
| `Print.FillBuffer` | src/lib/stdio.c:501-524 | The digits, commas and zeros go into 64 bytes without overflow, lowest digit first. |
| `Print.PutDigits` | src/lib/stdio.c:504-513 | The digit loop. |
| `Print.PutBackwards` | src/lib/stdio.c:543-544 | The buffer is output backwards. |
| `Print.Sink.Put` | src/lib/stdio.c:44-52 | The buffer holds as much of the output as fits, and the length counts all of it. |
| `Print.Sink.PutCopies` | src/lib/stdio.c:549-555 | Outputs a character a number of times. |
| `Print.Sink.Finish` | src/lib/stdio.c:37-41 | The buffer is terminated and the full length returned. |
| `Print.SnprintfInt` | src/lib/stdio.c:25-52 | The buffer gets the terminated prefix of the printed field that fits, nothing behind it changes, and the full length is returned. |
| `Print.Atoi` | src/lib/stdlib.c:9-41 | The number that the string denotes after white space and a sign, as a 32-bit int. |
| `Numerals.ParsedExactly` | src/lib/stdlib.c:9-41 | After any white space and one sign, the digits up to the first other character. |
| `Numerals.WhiteParsed` | src/lib/stdlib.c:9-41 | Any of the six white-space characters in front makes no difference. |
| `Numerals.DigitsValue` | src/lib/stdio.c:506-513 | The digits of a number denote it. |
| `Numerals.DigitsDenote` | src/lib/stdio.c:506-513 | In any base whose digits are distinct, as in the octal, decimal and hexadecimal tables, the digits output denote the number. |
| `Numerals.BasesDenote` | src/lib/stdio.c:138-141 | So they do in the decimal, octal and hexadecimal tables of the code. |
| `Numerals.BodyValue` | src/lib/stdio.c:515-524 | Zeros for the precision do not change the value. |
| `Loader.SizesFit` | src/userprog/process.c:430-458 | For every header that validate_segment accepts, the 32-bit sizes do not wrap, their sum is a multiple of the page size that covers the segment, and the pages lie in user space. |
| `Loader.AcceptedExactly` | src/userprog/process.c:506-547 | The 32-bit checks accept a header if and only if its segment is nonempty, starts above the first page, ends below PHYS_BASE without wrapping around, and its sizes and offsets agree. |
| `Loader.SegmentMeaning` | src/vm/page.c:57-93 | For every accepted header and every address of its segment: the page that holds the address loads exactly when the file has the page's bytes, and then the address reads as the ELF specification says, its file byte or zero past the file size. |
| `Loader.LazyPage` | src/vm/page.c:57-93 | For every file, a page loads exactly when the file has its bytes, and then it is its part of the one eager copy; where it reads any, its offset is not negative as an off_t. |
| `Loader.AllPagesLoad` | src/vm/page.c:57-93 | All pages of an accepted segment load, none stopped by file_seek's assertion, if and only if its file part ends within the file, which validate_segment does not check. |
| `Loader.OffsetsFit` | src/userprog/process.c:563-633 | No page offset of an accepted segment wraps around in 32 bits, so one that is negative as an off_t is at least 2^31. |
| `Loader.AddressSpace.LoadSegment` | src/userprog/process.c:563-633 | Every page of the segment gets the entry for its offset, with the segment's permission, or, when memory runs short, exactly the pages before that; pages that had entries keep them. |
| `Loader.AddressSpace.LazyLoad` | src/vm/page.c:24-55 | Adds an entry unless the page has one; fails exactly when memory is short. |
| `Loader.AddressSpace.ActualLoad` | src/vm/page.c:57-93 | The page's bytes are in its frame and the processor finds exactly that page there, with its permission; or the file is too short, the entry is dropped and no mapping changes. |
| `Loader.AddressSpace.LoadHeader` | src/userprog/process.c:430-458 | For every accepted header, all pages of its segment have entries, and the new ones are the segment's, writable exactly when it is. |
| `Loader.AddressSpace.Touch` | src/vm/page.c:57-93 | When a page of the segment is brought in, the processor finds every address of it in the frame, for writing exactly when the segment is writable, and the frame holds what the ELF specification says. |
| `ArgStack.SetupStack` | src/userprog/process.c:671-731 | The page holds exactly the layout of the command line's words, and walking it from the stack pointer finds argc, the vector and each word as a terminated string. |
| `ArgStack.FitsExactly` | src/userprog/process.c:671-731 | The layout fits in the page if and only if the line's letters and words, rounded up, and four bytes a word and sixteen more do. |
| `ArgStack.ShortLineFits` | src/userprog/process.c:671-731 | Every line of up to 1355 bytes fits. |
| `ArgStack.LongLineFails` | src/userprog/process.c:671-731 | A line of 1357 bytes that does not fit. |
| `ArgStack.Walk` | src/userprog/process.c:706-725 | From the final stack pointer: a zero return address, argc, a pointer to the vector just above, and a null after argc pointers, all aligned to four bytes. |
| `ArgStack.WalkArg` | src/userprog/process.c:686-716 | argv[i] points to a NUL-terminated copy of word i. |
| `ArgStack.LayoutWalks` | src/userprog/process.c:671-731 | The layout of any words without terminators can be walked back to the words. |
| `ArgStack.WordsAreMaximalRuns` | src/lib/string.c:234-275 | The words are exactly the maximal space-free runs of the command line, in order: a stretch between spaces or ends is a run if and only if it is listed. |
| `ArgStack.TokensNoNul` | src/lib/string.c:234-275 | The words of a string hold no terminator. |
| `ArgStack.TokensAreRuns` | src/lib/string.c:234-275 | From any position on, word i is the i-th run, runs do not overlap, and every byte that is not a space lies in one. |
| `ArgStack.StrtokR` | src/lib/string.c:234-275 | Returns the next word, terminated in place, and where to go on, or none exactly when no word is left. |
| `ArgStack.CountTokens` | src/userprog/process.c:677-684 | The number of words. |
| `ArgStack.Strlen` | src/lib/string.c:291-302 | The length up to the terminator. |
| `ArgStack.UserStack.PushStrings` | src/userprog/process.c:686-695 | The strings go onto the stack, the first one highest, and their addresses are kept. |
| `ArgStack.UserStack.Align` | src/userprog/process.c:700-704 | Zeros down to a multiple of four. |
| `ArgStack.UserStack.PushPointers` | src/userprog/process.c:711-715 | The pointers, the last one first. |
| `ArgStack.UserStack.Push` | src/userprog/process.c:691-692 | The bytes come just below what was there. |

## Left out

- Files of more than 251 sectors: the doubly indirect path writes sector 0 before allocating and is never released, so it keeps no invariant.
- Calls that run out of sectors part-way, within runs: an index sector number is then kept without its block having been written; single failed growths are covered.
- Negative sizes and offsets of file writes.
- free_map_allocate for more than one sector and its rollback when the map cannot be written.
- Read-ahead, which never touches the cache, the periodic flush, and the cache's semaphore: calls are taken as atomic.
- File handles, directories, paths and everything above inode.c.
- What is stored in allocated memory: the filling with zeros or 0xcc, and calloc.
- The descriptors' locks in malloc.c and the pools' locks in palloc.c: calls are taken as atomic.
- Scheduling: any thread that is not blocked may take the next step; priorities, thread lists and interrupts are not modelled.
- Semaphore values beyond 32 bits.
- list_unique, list_max, list_min and list_size; elements of the list are modelled as nodes that belong to one list.
- hash_clear, hash_destroy, hash_apply and the hash functions for bytes, strings and ints.
- pagedir_destroy and the TLB.
- qsort and bsearch, which only call sort and binary_search.
- The loop of __vprintf over the format, and conversions other than integers.
- ELF headers, the loop over program headers, the choice of frames and swapping.
- Getting the stack page in setup_stack, and command lines whose layout does not fit in it.
- Devices, boot code, system calls and the rest of process.c.
- Lists.List.Splice: both ranges are in one list, as inplace_merge uses it; splicing between two lists would only repeat the argument.
- InodeOps.Store.ReadAt: the bounce buffer is always to be had.
- InodeOps.Store.WriteAt: the bounce buffer is always to be had.
- Malloc.Heap.Realloc: the bytes it copies, since what is stored in memory is not modelled.
- Mounts.Mount.Create: memory for the inode is to be had, and so are the sectors; AllocateAndCreate covers both failures.
- Mounts.Mount.Write: the sectors it needs are to be had; InodeOps.Store.WriteAt covers the failure.
- Print.SnprintfInt: one %d conversion, not a whole format.
- ArgStack.StrtokR: for the delimiter " " only, which is how setup_stack calls it.
- ArgStack.SetupStack: the layout is assumed to fit in the page, which the code does not check; FitsExactly says when it does.
- Loader.AddressSpace.ActualLoad: page offsets of 2^31 or more, at which file_seek's assertion stops the kernel.
- HeapSort.Sort: indices are unbounded, so twice the number of elements is taken to fit in 32 bits.
- Print.Atoi: overflow, which C leaves undefined, wraps around.
- Formats.Parsing: widths and precisions are unbounded, and a missing argument counts as 0.
- Arithmetic.Sdiv64: negating the minimum, which C leaves undefined, wraps around.
