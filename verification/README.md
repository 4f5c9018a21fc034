# A verified model of the `a3/fs` file system

The project models the Pintos-derived file system in `a3/fs` from the bottom up and proves what its layers promise
each other.

* `Blocks.dfy`, `Bitmap.dfy`, `Cache.dfy`: sectors and the words in them; the packed bitmap over an `array<bv64>`,
  which refines a sequence of booleans; the write-back cache with its clock, for any number of slots, which is
  indistinguishable from the flat disk.
* `SortSpec.dfy`, `List.dfy`: the intrusive doubly linked list with its in-place natural merge sort.
* `Layout.dfy`, `Content.dfy`: where the data and index sectors of a file stand in its allocation order, in closed
  form; what its index blocks hold; which bytes its sectors hold. A ghost *tag* for every sector records which file
  owns it and at which position.
* `Reserve.dfy`, `Release.dfy`: what one reservation or release does to disk and owners, step by step.
* `Volume.dfy`, `Inode.dfy`, `FreeMap.dfy`: inodes and the free map, which call each other: a reservation
  allocates, an allocation writes the free map, and that writes the free map's own inode.
* `Growth.dfy`, `Ownership.dfy`: cost, growth in steps, compact layout; the ownership invariant over all files.
* `Directory.dfy`, `Path.dfy`, `Catalog.dfy`, `FileSystem.dfy`, `Format.dfy`, `File.dfy`: directories as 36-byte
  records that refine a map; paths cut at their slashes; create, remove, open, read, write, format and restart over
  one root directory, each related to a *view*, the map from names to bytes.
* `FileList.dfy`, `Defragment.dfy`: `fragmented_file`, `reverse_list` and `defragment`.
* `Session.dfy`: whole runs of operations, failed ones included, from formatting to a restart.

`Valid()` says that the cache and the bitmap represent the flat disk and the tags, the free map's file holds the
bits of the map, every file's index blocks describe its sectors, bytes past its end are zero, sectors belong to
exactly one file, and the directory names every file once. Every operation on `FileSystem` keeps it, also when it
fails and its handle is closed, but two that run out of sectors: a write to a file that has index blocks, and a
creation for which a directory that has index blocks had to grow and could not. These change no byte of any file
and keep the volume's own invariant. Sectors in use that no file has are tagged as lost: formatting leaves none,
failed creations and writes that did not fit add stated ones, and every other operation keeps the set as it is.
`dafny verify dfyconfig.toml` checks the project.

## Where code and comments disagree

The model follows the code in each case.

* `bitmap_scan_and_flip` (`a3/fs/bitmap.c:268-279`) is said to return 0 when CNT is zero; it returns START.
* `inode_write_at` (`a3/fs/inode.c:249-274`) is said not to extend files; it does. A write of no bytes within the
  file changes nothing; at offset 0 it puts an inode of length 0 on the disk and in memory and releases nothing,
  which changes nothing exactly when the file is empty and its inode on the disk (`Reserving.EmptyWriteAtStart`);
  past the end it extends the file if that fits, and otherwise does what a reserve that fails does
  (`Reserving.EmptyWrite`).
* `inode_reserve_indirect` (`a3/fs/inode.c:379-385`) ignores a failed allocation of an index block; sector 0, the
  free map's inode, is then zeroed, and the free map cannot be read any more when the file system is started again.
  For a file that has q sectors of its own or free, and is to have n data sectors, that happens exactly when q is
  less than the cost of n data sectors (of 16635 if n is more) and an index block stands at position q
  (`Reserving.Overruns`). `Formatting.CreateZeroesMap` shows such a case.
* `free_map_open` (`a3/fs/free-map.c:51-57`) panics when it cannot read the map, which is said to halt the system;
  `debug_panic` (`a3/fs/debug.c:58-61`) prints and returns. The program goes on with a map in which two sectors are
  marked and whose file is empty. It hands out no sector twice, because it hands out none: to write the map its
  file has to grow, for which a sector has to be allocated, for which the map has to be written, and so on until no
  sector is left; then every level gives its sector back and fails (`FreeMaps.AllocateZeroed`).
* `file_write` (`a3/fs/file.c:123-138`) is said to advance by the bytes written; it advances by two less, and it
  overwrites the last byte of the caller's buffer.
* `filesys_create` (`a3/fs/filesys.c:54-88`) undoes a failure by releasing the inode's sector only. With f > 0 free
  sectors, of which the first is the inode's, exactly the next k of them are lost. Here k is the smaller of f - 1
  and the cost of the file's data sectors (of 16635 if there are more, of none if the size is negative); if the
  file was made and the directory could not grow, k counts the sectors that the directory took as well
  (`FileSystems.Wasted`).
* `filesys_create` and `filesys_open` look only at the last name of a path, whatever comes before it;
  `filesys_remove` looks its folders up (`a3/fs/filesys.c:61,107,132`).
* `defragment` (`a3/fs/fsutil2.c:264`) is said to bring the number of fragmented files to zero. That holds exactly
  when none of the places the files move to is broken; it always holds while the sectors that are not for plain
  files are a prefix of the device, as they are after formatting. `Defragmentation.StaysFragmented` shows a case in
  which it does not hold. Contents survive exactly when every file ends with a NUL byte.

## Model

| member | source | states |
|---|---|---|
| Bitmaps.Bitmap.constructor | a3/fs/bitmap.c:64-77 | a new bitmap has the requested number of bits, all false, padding bits included |
| Bitmaps.Bitmap.Mark | a3/fs/bitmap.c:143-148 | the boolean sequence changes at that bit only, although a whole 64-bit word is rewritten |
| Bitmaps.Bitmap.Reset | a3/fs/bitmap.c:151-156 | likewise for clearing a bit |
| Bitmaps.Bitmap.Flip | a3/fs/bitmap.c:161-166 | likewise for toggling a bit |
| Bitmaps.Bitmap.Set | a3/fs/bitmap.c:133-140 | the bit takes the given value and no other bit changes |
| Bitmaps.Bitmap.Test | a3/fs/bitmap.c:169-173 | a masked word gives the bit of the boolean sequence |
| Bitmaps.Bitmap.SetMultiple | a3/fs/bitmap.c:185-195 | exactly the given run of bits takes the value, across word boundaries |
| Bitmaps.Bitmap.Count | a3/fs/bitmap.c:199-212 | the number of bits of the run equal to the value |
| Bitmaps.Bitmap.Contains | a3/fs/bitmap.c:216-228 | true exactly when some bit of the run has the value, false exactly when all have the other |
| Bitmaps.Bitmap.Scan | a3/fs/bitmap.c:253-266 | the least start of a run of equal bits at or after START, or BITMAP_ERROR exactly when there is none |
| Bitmaps.Bitmap.ScanAndFlip | a3/fs/bitmap.c:273-279 | flips exactly that least run; the number of bits with the value drops by exactly CNT; nothing changes on failure |
| Bitmaps.FlippedRunCount | a3/fs/bitmap.c:273-279 | flipping a run of CNT equal bits changes the whole count by exactly CNT |
| Bitmaps.Bitmap.ToBytes | a3/fs/bitmap.c:300-304 | the bytes written to the file are the little-endian image of the bit sequence: bit i has weight 2^(i mod 8) in byte i / 8, and the padding is zero |
| Bitmaps.Bitmap.FromBytes | a3/fs/bitmap.c:288-296 | bit i is the bit of weight 2^(i mod 8) in byte i / 8, and the padding of the last word is zero again |
| Bitmaps.Bitmap.ClearPadding | a3/fs/bitmap.c:51-56 | masking the last word clears exactly the bits past the end |
| Bitmaps.ImageRoundTrip | a3/fs/bitmap.c:288-304 | writing a bitmap and reading it back gives the same bits |
| Bitmaps.ByteCntHolds | a3/fs/bitmap.c:42-49 | the image takes the fewest whole 64-bit words that hold the bits |
| Cache.PassedFrom | a3/fs/cache.c:71-88 | the clock stops at the first slot, cyclically from the hand, that is free or unreferenced, after at most one full turn; every slot passed was referenced |
| Cache.BufferCache.Advance | a3/fs/cache.c:71-88 | the loop ends there, and exactly the slots passed over lose their reference bit |
| Cache.BufferCache.Evict | a3/fs/cache.c:71-99 | the array, the hand and the device end in the specified state, a dirty victim being written back first |
| Cache.EvictKeepsView | a3/fs/cache.c:71-99 | eviction frees the slot under the hand, brings in no new sector and leaves the flat disk seen through the cache unchanged |
| Cache.EvictTurnsClock | a3/fs/cache.c:71-99 | eviction passes over occupied and referenced slots only, clears exactly their reference bits, and ends under the hand at the first other slot or after a full turn |
| Cache.BufferCache.Lookup | a3/fs/cache.c:53-64 | the first occupied slot that holds the sector, or a miss |
| Cache.BufferCache.Read | a3/fs/cache.c:101-118 | returns the flat disk's sector and leaves the flat disk alone |
| Cache.BufferCache.Write | a3/fs/cache.c:120-138 | changes exactly that sector of the flat disk |
| Cache.ReadKeepsView | a3/fs/cache.c:101-118 | a read keeps occupied slots distinct, clean slots equal to the device, and the view |
| Cache.WriteUpdatesView | a3/fs/cache.c:120-138 | a write keeps those invariants and updates the view at its sector |
| Cache.ReadAccesses | a3/fs/cache.c:101-118 | after a read the sector has a slot whose reference bit is set, the evicted one if it had none; every other slot is as it was or as the eviction left it |
| Cache.WriteAccesses | a3/fs/cache.c:120-138 | the same after a write |
| Cache.LastAccessStays | a3/fs/cache.c:71-138 | after any run the sector accessed last is not the next victim while another slot is free or unreferenced |
| Cache.NothingIsEvicted | a3/fs/cache.c:71-138 | from an empty cache on, a run that accesses at most as many sectors as there are slots evicts none: in the end exactly those have slots, and the device has not been written |
| Cache.FlushKeepsView | a3/fs/cache.c:31-38 | writing a dirty slot back leaves it clean and the view unchanged |
| Cache.BufferCache.Close | a3/fs/cache.c:40-47 | after closing, the device itself is the flat disk |
| Cache.CloseWritesBack | a3/fs/cache.c:40-47 | the same of the state: every slot flushed makes the device equal to the view |
| Cache.Transparent | a3/fs/cache.c:101-138 | over any run of reads and writes a sector reads as the last value written to it, or its initial value, and so it is on the device after closing |
| List.LinkedList.constructor | a3/fs/list.c:54-60 | an empty list: the two sentinels are each other's neighbours |
| List.LinkedList.Size | a3/fs/list.c:255-262 | the number of elements between the sentinels |
| List.LinkedList.Insert | a3/fs/list.c:144-152 | the element is in front of the given one, the order of the others kept, prev and next mutual inverses |
| List.LinkedList.PushBack | a3/fs/list.c:186-188 | the element is appended |
| List.LinkedList.PushFront | a3/fs/list.c:180-182 | the element is prepended |
| List.LinkedList.Remove | a3/fs/list.c:216-221 | exactly that element leaves the list and its successor is returned |
| List.LinkedList.Splice | a3/fs/list.c:157-176 | within one list the range is moved in front of BEFORE, everything else keeps its order and the links stay mutual inverses |
| List.LinkedList.SpliceFrom | a3/fs/list.c:157-176 | the range leaves the other list and stands in front of BEFORE in this one; both keep their order and are well linked |
| List.LinkedList.FindEndOfRun | a3/fs/list.c:304-316 | the end of the longest nondecreasing run from A that ends not after B |
| List.LinkedList.InplaceMerge | a3/fs/list.c:323-340 | terminates although both cursors move and elements are spliced, and leaves the merged sequence in the same nodes |
| SortSpec.MergeSorts | a3/fs/list.c:318-322 | merging two adjacent sorted ranges gives a sorted range, a stable permutation, and leaves the rest in place |
| List.LinkedList.MergePass | a3/fs/list.c:358-372 | one pass merges adjacent runs pairwise and counts the runs it outputs |
| SortSpec.PassHalvesRuns | a3/fs/list.c:351-373 | a pass over r runs outputs (r + 1) / 2 runs, leaves at most that many natural runs, and is a stable permutation |
| SortSpec.Sort | a3/fs/list.c:345-376 | repeating passes until one run is output ends, under any strict weak order, with a sorted stable permutation |
| List.LinkedList.Sort | a3/fs/list.c:345-376 | the linked list ends sorted, a stable permutation of itself in the same nodes, well linked between its sentinels |
| List.LinkedList.InsertOrdered | a3/fs/list.c:381-393 | the element is inserted after every element that is not greater up to the first greater one |
| SortSpec.InsertKeepsSorted | a3/fs/list.c:378-393 | that keeps a sorted list sorted, with the element after its equals |
| List.LinkedList.Unique | a3/fs/list.c:399-416 | keeps the first of each group of adjacent equals; the others are appended in order to the second list, unless that is null, and both lists stay well linked and share no element |
| SortSpec.UniqueSplits | a3/fs/list.c:395-416 | no two adjacent elements kept are equal, and kept and removed together are a permutation of the input |
| List.LinkedList.Reverse | a3/fs/list.c:277-286 | swapping the links in place reverses the sequence and keeps it well linked |
| List.LinkedList.ReverseTwice | a3/fs/list.c:277-286 | reversing a list twice gives it back, in the same nodes |
| Blocks.WordsRoundTrip | a3/fs/inode.c:12-14 | an index block written and read back has the same 128 entries |
| Blocks.LittleEndian | a3/fs/inode.c:12-14 | a word is stored with its least significant byte first |
| Layout.InodeRoundTrip | a3/fs/inode.h:19-28 | an inode encoded into its sector and decoded is the same inode |
| Layout.InodeFields | a3/fs/inode.h:19-28 | where each field of the inode lies in its sector |
| Layout.EntryPath | a3/fs/inode.c:28-75 | the entry reached through the direct, indirect or doubly indirect path is the sector at the closed-form position of the data index, or null where the file has none |
| Layout.PosIsData | a3/fs/inode.c:406-447 | no data index stands at an index block's position, and the position determines the data index |
| Layout.DataIsPos | a3/fs/inode.c:406-447 | every position that is not an index block's holds a data sector |
| Layout.Gaps | a3/fs/inode.c:360-447 | consecutive data sectors are one to three positions apart: three only at the entry to the doubly indirect zone, two only at other index blocks |
| Layout.InFile | a3/fs/inode.c:406-447 | data index i is below n exactly when its position is below the cost of n sectors |
| Layout.CostIsEnd | a3/fs/inode.c:406-447 | a file's sectors end with its last data sector |
| Layout.BytesCost | a3/fs/inode.c:22-24 | bytes_to_sectors is the least number n of sectors that hold the bytes, and a file of that length costs n + [n > 123] + [n > 251] (1 + ceil((n - 251) / 128)) sectors |
| Layout.TakeFirstFree | a3/fs/free-map.c:31-41 | first-fit allocation removes the head of the list of free sectors and nothing else |
| Layout.ReleaseOne | a3/fs/free-map.c:44-48 | releasing one used sector lengthens that list by exactly one |
| Layout.GrewPrefix | a3/fs/inode.c:360-447 | a growing file takes a prefix of the free list, in order, and the rest stays free |
| Content.PatchSector | a3/fs/inode.c:292-317 | patching one sector changes exactly the patched bytes of the file |
| Content.WroteBytes | a3/fs/inode.c:276-323 | chunks written into the allocated sectors splice the buffer into the file's bytes |
| Reserving.KidStep | a3/fs/inode.c:390-395 | growing below one entry of an index block leaves the subtrees of its siblings on the disk intact |
| Reserving.KidsToTree | a3/fs/inode.c:397-399 | writing the entries back completes the subtree that the sectors describe |
| Reserving.IndexWritten | a3/fs/inode.c:397-399 | that write touches no sector but the index block, and the new data sectors stay zeroed |
| Reserving.ReservedMore | a3/fs/inode.c:360-447 | two reservations in a row are one reservation, with the same frame and the same zeroed sectors |
| Reserving.RanOutInTheEnd | a3/fs/inode.c:360-447 | whatever was reserved before, a reservation that runs out has given the file every free sector, and sector 0 is zeroed exactly when the sector that was missing is an index block's |
| Reserving.TooLong | a3/fs/inode.c:438-446 | when there are enough sectors for the largest file but the length is not supported, the file has been given all of them and sector 0 is untouched |
| Reserving.ToRefused | a3/fs/inode.c:406-447 | in numbers: a failed reserve gives the file the smaller of what is free and what the supported part of the length still needs; sector 0 is zeroed exactly when what the file has and what is free do not suffice and add up to an index block's position |
| Reserving.GrownFile | a3/fs/inode.c:253-274 | after a successful reserve and the new length the file reads as its old bytes followed by zeros, and stays zero past its end |
| Reserving.UntouchedFile | a3/fs/inode.c:253-327 | a file none of whose sectors is written keeps its structure and all its bytes |
| Reserving.WrittenInside | a3/fs/inode.c:276-326 | a write before the end splices the buffer and changes no length, entry or owner |
| Reserving.WrittenBeyond | a3/fs/inode.c:264-326 | a write past the end splices the buffer into the zero-extended file, whose inode is on the disk |
| Reserving.EmptyWriteAtStart | a3/fs/inode.c:264-274 | a write of no bytes at offset 0 changes nothing exactly when the file is empty and its inode on the disk |
| Volumes.Volume.constructor | a3/fs/free-map.c:13-20 | the free map marks exactly the two reserved sectors, and the cache presents the device |
| Volumes.Volume.TakeFree | a3/fs/free-map.c:31-32 | bitmap_scan_and_flip takes the first free sector, or fails exactly when there is none |
| Volumes.Volume.GiveBack | a3/fs/free-map.c:44-46 | the used sector is free again and no other bit changes |
| Volumes.Volume.NumFreeSectors | a3/fs/free-map.c:22-24 | the number of clear bits is the length of the list of free sectors |
| Volumes.Volume.IndexToSector | a3/fs/inode.c:28-75 | the sector of the data index, null where none is allocated behind an allocated index block, -1 for an index beyond the largest file |
| Volumes.Volume.ByteToSector | a3/fs/inode.c:81-89 | -1 exactly outside the file, else the sector that holds the byte |
| Volumes.Volume.ReadAt | a3/fs/inode.c:201-247 | exactly the slice of the file's bytes clipped at its length |
| Volumes.Volume.WriteChunks | a3/fs/inode.c:276-326 | the loop writes the whole buffer, changes exactly those bytes and only the file's own data sectors |
| Volumes.Volume.WriteMap | a3/fs/bitmap.c:300-304 | the map's file gets the bits of the map and is not extended, so the recursion allocate, bitmap write, inode write ends |
| Volumes.Volume.Allocate | a3/fs/free-map.c:31-41 | takes the first free sector, never sector 0, with the map's file in step afterwards; fails exactly when no sector is free |
| Volumes.Volume.ReserveSector | a3/fs/inode.c:367-377 | the base case allocates and zeroes one sector where the entry is null, and fails exactly when none is free, changing nothing |
| Volumes.Volume.EnterIndex | a3/fs/inode.c:379-385 | an index block is allocated, zeroed and read; exactly when no sector is free for it, sector 0 of the disk becomes zeros and is read instead, as the code does |
| Volumes.Volume.ReserveKids | a3/fs/inode.c:387-397 | the loop over the entries reserves exactly the sectors missing below the block, or runs out |
| Volumes.Volume.ReserveIndirect | a3/fs/inode.c:360-400 | succeeds exactly when enough sectors are free, and then takes the first free ones in allocation order at both levels |
| Volumes.Volume.Reserve | a3/fs/inode.c:406-447 | succeeds exactly when the length is not negative, the least number n of sectors that hold it is at most 16635, and what is missing of n + [n > 123] + [n > 251] (1 + ceil((n - 251) / 128)) is free; the inode then describes old and new sectors, and only new, index and map sectors were written. A negative length takes nothing. Any other failure says which sectors the file got, that besides those only its index blocks, the map's file and sector 0 were written, and exactly when sector 0 was zeroed |
| Volumes.Volume.Extend | a3/fs/inode.c:264-274 | on success the file has the new length, reads as before with zeros added, and its inode is on the disk; with length 0 the inode's length on disk and in memory is cut and nothing else changes; on failure the length stays |
| Volumes.Volume.WriteAt | a3/fs/inode.c:253-327 | a write of at least one byte that fits is complete: the bytes are spliced, gaps are zero, only this file's sectors change; one that does not fit writes 0 bytes and leaves what a failed reserve leaves; denied writes do nothing; an empty write changes nothing within the file, cuts the length to 0 at offset 0, and past the end extends the file to the offset exactly when that fits |
| Volumes.Volume.CloseCache | a3/fs/cache.c:40-47 | the device alone then holds the whole volume |
| Volumes.ChunkWritten | a3/fs/inode.c:276-323 | one chunk keeps the file well formed and zero past its end |
| Releasing.ReleasedMore | a3/fs/inode.c:449-508 | releasing two adjacent ranges of positions, in either order, releases the whole range, each sector once |
| Releasing.ReleasedTree | a3/fs/inode.c:459-469 | the index blocks stay readable while the sectors below them are released |
| Releasing.ReserveThenRelease | a3/fs/inode.c:360-508 | releasing what a file gained by a reserve restores the earlier free map exactly |
| Inodes.Release | a3/fs/free-map.c:44-48 | the sector is free again and the map's file in step |
| Inodes.DeallocateIndirect | a3/fs/inode.c:449-473 | releases exactly the sectors below the entry and the index blocks above them, each once, at every level |
| Inodes.Deallocate | a3/fs/inode.c:475-508 | releases exactly the file's data and index sectors in all three zones, each once |
| Inodes.Close | a3/fs/inode.c:171-189 | a removed inode's sector and all its file's sectors become free; an inode not removed changes nothing |
| Inodes.CreateThenRemove | a3/fs/inode.c:103-189 | creating a file and removing it leaves the free map as it was |
| Inodes.Create | a3/fs/inode.c:103-125 | succeeds exactly when the length is not negative and supported and its cost is free, and then takes n + [n > 123] + [n > 251] (1 + ceil((n - 251) / 128)) sectors for the least n sectors that hold it; the file reads as zeros and its inode is on the disk; a failure is that of the reserve |
| Inodes.OpenInode | a3/fs/inode.c:130-158 | the handle holds the inode decoded from its sector |
| Inodes.DataSectors | a3/fs/inode.c:510-579 | the three loops fill the array exactly: entry i is the sector that index_to_sector gives for i |
| Inodes.SecondLevel | a3/fs/inode.c:557-572 | the i-th second-level block lists the data sectors from 251 + 128 i on |
| FreeMaps.FreeMapCreate | a3/fs/free-map.c:64-77 | succeeds exactly when the map's own file fits; that file then holds the map, its own sectors included |
| FreeMaps.FreeMapOpen | a3/fs/free-map.c:51-57 | on any volume, also one just initialised that knows nothing of the files, the map in memory becomes the one the disk holds. It fails exactly when the map's inode was zeroed; then the map in memory stays as it is, attached to an empty file |
| FreeMaps.AllocateZeroed | a3/fs/free-map.c:31-42 | with that empty file every allocation fails and changes nothing, whatever sectors are free: each level of the recursion takes a sector, fails to write the map and gives the sector back |
| Growth.ExactCost | a3/fs/inode.c:360-447 | a file that has n data sectors among its sectors and ends with one consumed n + [n > 123] + [n > 251] (1 + ceil((n - 251) / 128)) free sectors, all different |
| Growth.CostHolds | a3/fs/inode.c:406-447 | of the first Cost(n) positions of a file, counted one by one, exactly n hold data |
| Growth.TwoStepsAreOne | a3/fs/inode.c:406-447 | reserving one length and then a longer one takes the same sectors as reserving the longer at once |
| Growth.GrowthIsMonotone | a3/fs/inode.c:28-75 | growth leaves every old data index where it was and maps the new ones to distinct sectors that were free |
| Growth.PrefixGrows | a3/fs/bitmap.c:253-279 | while the used sectors are a prefix a growing file takes the next ones in a row, and they still are a prefix |
| Growth.CompactIsWhole | a3/fs/fsutil2.c:177-184 | a file in one run of sectors has increasing data sectors at most 3 apart, exactly 3 at the doubly indirect boundary, so it is not fragmented |
| Growth.FragmentedIs | a3/fs/fsutil2.c:177-184 | a file is fragmented exactly when some data sector lies before the one that precedes it in the file, or more than three behind it |
| Ownership.SectorsDisjoint | a3/fs/filesys.c:54-88 | the inode, data and index sectors of different files are disjoint, those of one file all different, and sector 0 is only the free map's inode |
| Ownership.UsedIsOwned | a3/fs/filesys.c:54-88 | a sector belongs to some file exactly when it is in use and not lost to a failed creation |
| Ownership.WorldWrite | a3/fs/inode.c:253-327 | a write keeps the ownership invariant and every other file's bytes |
| Ownership.WorldCreate | a3/fs/inode.c:103-125 | a creation in a free sector keeps the ownership invariant and every file's bytes |
| Ownership.WorldRemove | a3/fs/inode.c:171-189 | a removal keeps the ownership invariant and every other file's bytes |
| Ownership.WorldLose | a3/fs/filesys.c:83-84 | after a failed creation every file still stands and reads the same; what the new file was given is lost |
| Ownership.LostAreNews | a3/fs/filesys.c:83-84 | after the undo of a failed creation the map of owners is the old one with exactly those sectors written off that the new file was given besides its inode's, and those the directory took |
| Ownership.NewsAreGiven | a3/fs/inode.c:103-125 | a new file has its inode's sector and the sectors it was given, and no other; none is lost by giving them |
| Ownership.WorldClosed | a3/fs/inode.c:264-270 | after a write that did not fit, to a file without index blocks, the closed file and all others stand as before; the sectors that the write took are lost |
| Ownership.ClosedLoses | a3/fs/inode.c:264-270 | the sectors so lost are the first of the free list, as many as the write took, and no others |
| Ownership.RefusalKeepsBytes | a3/fs/inode.c:264-270 | a reservation that fails changes no byte of any file, that of the file itself included |
| Directories.EntryRoundTrip | a3/fs/directory.h:22-26 | a 36-byte record written and read back is the same entry |
| Directories.EntryFields | a3/fs/directory.h:22-26 | where each field of an entry lies in its 36 bytes |
| Directories.ImageSlot | a3/fs/directory.c:187-197 | entry k lies at byte 36 k of the directory's file, straddling a sector boundary or not |
| Directories.ImagePut | a3/fs/directory.c:292-296 | writing a record at its offset replaces that entry, or adds one at the end of the file |
| Directories.FindIsLookup | a3/fs/directory.c:179-198 | the search from slot 1 finds a name exactly when the map has it, with the map's sector |
| Directories.AddRefinesMap | a3/fs/directory.c:262-296 | the first free slot filled: the map gains exactly that name, names stay distinct |
| Directories.RemoveRefinesMap | a3/fs/directory.c:315-336 | clearing the entry found: the map loses exactly that name |
| Directories.ListingIsKeys | a3/fs/directory.c:351-362 | the listing has every name of the map exactly once |
| Directories.ListingInOrder | a3/fs/directory.c:351-362 | the listing follows the order of the slots |
| Directories.Lookup | a3/fs/directory.c:179-198 | found exactly when the map has the name, with its entry and offset |
| Directories.FreeSlot | a3/fs/directory.c:286-290 | the offset of the first unused slot from slot 0 on, or of the end |
| Directories.Dir.ReadDir | a3/fs/directory.c:351-362 | the next entry in use and the cursor just past it, or the end |
| Directories.ListNames | a3/fs/fsutil.c:15-28 | repeated dir_readdir gives the whole listing in slot order |
| Catalogs.ViewCreate | a3/fs/filesys.c:54-88 | naming a new file adds its bytes under that name and changes no other name |
| Catalogs.ViewRemove | a3/fs/directory.c:305-346 | removing a named file removes that name and changes no other |
| Catalogs.ViewWrite | a3/fs/inode.c:253-327 | writing a named file changes the bytes under that name only |
| Paths.TokensOfEnds | a3/fs/directory.c:29-42 | for a directory's path d, empty or ending in a slash, a name t and slashes z, the tokens of d t z are those of d and then t |
| Paths.SlashesHaveNoToken | a3/fs/directory.c:29-42 | slashes alone have no token |
| Paths.EveryPathEnds | a3/fs/directory.c:29-42 | every path is of one of these two forms, so that they determine its tokens |
| Paths.OneMoreFolder | a3/fs/directory.c:33-39 | appending a token and a slash to a directory's path adds exactly that folder to its tokens |
| Paths.NextToken | a3/fs/directory.c:31-32 | the next token of a path and what follows it, as strtok_r cuts them at any number of slashes |
| Paths.SplitPath | a3/fs/directory.c:17-48 | of a path d t z the file name is t, and the directory's path has the tokens of d; slashes alone have neither |
| FileSystems.MadeIsWhole | a3/fs/inode.c:360-447 | a file created while the used sectors are a prefix takes the next ones, is not fragmented, and leaves them a prefix |
| FileSystems.FileSystem.MarkedIsOwned | a3/fs/free-map.c:10-20 | in every valid state a bit of the free map is set exactly when a file owns the sector, inode, data or index, or it was lost to a failed creation, and never both; no sector has two owners |
| FileSystems.FileSystem.AddEntry | a3/fs/directory.c:247-300 | the name is added exactly when it is valid, new, and a slot is free or the directory can grow; a duplicate or invalid name changes nothing; a directory that cannot grow leaves what a failed reserve leaves |
| FileSystems.FileSystem.Create | a3/fs/filesys.c:54-88 | for any path and size: succeeds exactly when the last name is new and valid, the size is not negative and everything fits; the new file reads as zeros, no other file changes and no sector is lost. A failure changes no byte of any file and loses exactly a stated number of sectors behind the first free one: those of the file, and those of the directory when it could not grow. Every invariant then holds again, unless the directory could not grow and has index blocks. The free map's inode is zeroed exactly when the sectors run out at an index block |
| FileSystems.FileSystem.GiveUp | a3/fs/filesys.c:83-85 | the undo releases one sector only, the rest is written off, the directory's inode is read anew, and every invariant holds again |
| FileSystems.FileSystem.RemoveEntry | a3/fs/directory.c:305-346 | succeeds exactly when the name exists; it and exactly its sectors are gone, every other file is unchanged, no sector is lost |
| FileSystems.FileSystem.OpenPath | a3/fs/directory.c:107-150 | a path through no plain file leads to the root directory exactly when each of its names is `.` or `..`, and otherwise nowhere |
| FileSystems.FileSystem.Remove | a3/fs/filesys.c:128-138 | succeeds exactly when every folder is `.` or `..` and the last name exists; that name and exactly its sectors are gone, every other file is unchanged, no sector is lost |
| FileSystems.FileSystem.OpenName | a3/fs/filesys.c:95-122 | a handle on the file under the last name of the path, whatever comes before it, null exactly when there is none; `.`, `..` and a path of slashes give the root directory's |
| FileSystems.FileSystem.ReadFile | a3/fs/inode.c:201-247 | a read through a handle gives the slice of the bytes under its name |
| FileSystems.FileSystem.WriteFile | a3/fs/inode.c:253-327 | a write through a handle that fits splices the bytes under its name, keeps every invariant and every other name, and loses no sector; one that does not fit changes no byte of any file, takes a stated number of sectors, and zeroes the free map's inode exactly when they run out at an index block |
| FileSystems.FileSystem.CloseHandle | a3/fs/inode.c:171-189 | closing the handle after such a write to a file without index blocks: every invariant holds again, no byte has changed and the sectors are lost |
| FileSystems.FileSystem.Done | a3/fs/filesys.c:41-45 | after shutdown the device alone gives every file's bytes under its name |
| Formatting.DirCreate | a3/fs/directory.c:52-75 | the root directory has its parent's entry in slot 0 and free slots behind it |
| Formatting.Format | a3/fs/filesys.c:20-39 | from any device contents to an empty valid file system, exactly when the device holds the map's file and the directory; the used sectors are then a prefix, none is lost, and the map in memory is the one read back from the disk |
| Formatting.ValidOnDisk | a3/fs/filesys.c:41-45 | what makes a file system valid can be read off its disk alone: every file, the directory, and the bits of the map |
| Formatting.Start | a3/fs/filesys.c:20-39 | starting without formatting on such a disk gives back every name with its bytes and every sector's use, exactly unless the map's inode was zeroed; then the map in memory has the first two sectors marked and an empty file |
| Formatting.Restart | a3/fs/filesys.c:20-45 | shutting down and starting again keeps the names, bytes and owners, and reads the map exactly when its inode is intact; when it is not, the disk still holds every file and the map in memory knows none |
| Formatting.CreateZeroed | a3/fs/filesys.c:54-88 | after a start with a zeroed map every creation fails and changes nothing |
| Formatting.ReadZeroed | a3/fs/inode.c:201-247 | what the files hold can still be read |
| Formatting.CreateZeroesMap | a3/fs/inode.c:379-385 | a concrete case: on a formatted device of 199 sectors creating a file of 63488 bytes fails, loses 123 sectors and zeroes the free map's inode |
| Formatting.CreateNothing | a3/fs/free-map.c:31-42 | a concrete case: the device of `CreateZeroesMap` started again has 196 sectors free in memory, and not even an empty file can be created |
| OpenFiles.File.Read | a3/fs/file.c:109-113 | the bytes from the position go to the front of the buffer, the rest of it is untouched, the position moves past them |
| OpenFiles.File.Write | a3/fs/file.c:133-138 | the last byte is forced to NUL in the caller's buffer and in the file, and the position advances by the bytes written less two, so that it stays usable exactly when position and bytes written make at least two |
| FileLists.ReverseList | a3/fs/fsutil2.c:251-262 | reversing the pointers gives the chain of the same nodes in reverse order |
| Defragmentation.FragmentedFile | a3/fs/fsutil2.c:164-188 | true exactly when some data sector has a smaller number than the one before it in the file, or a number more than 3 greater, although the code subtracts unsigned 32-bit numbers |
| Defragmentation.Collect | a3/fs/fsutil2.c:276-307 | the list holds every file with its bytes, the last one listed first, and nothing changes |
| Defragmentation.RemoveAll | a3/fs/fsutil2.c:316-318 | every entry is cleared while the cursor runs over them, and exactly the cost of all files is free again |
| Defragmentation.RestoreOne | a3/fs/fsutil2.c:328-329 | creating and writing the next file succeeds, in the next slot and the next sectors |
| Defragmentation.RestoreAll | a3/fs/fsutil2.c:327-335 | the loop restores every node of the list in order |
| Defragmentation.NulEndedAlready | a3/fs/file.c:133-138 | forcing the last bytes to NUL changes nothing exactly when every file already ends with one |
| Defragmentation.MadePlaced | a3/fs/inode.c:360-447 | a file made while the free sectors are a given list takes the next ones of it: its inode, then its sectors in order |
| Defragmentation.WholeIsUnbroken | a3/fs/fsutil2.c:164-188 | no file is fragmented exactly when none of the places the files lie in is broken |
| Defragmentation.RunIsUnbroken | a3/fs/fsutil2.c:164-188 | in consecutive sectors no place is broken, whatever the sizes of the files |
| Defragmentation.PrefixIsUnbroken | a3/fs/fsutil2.c:264-338 | behind a prefix of other sectors no place is broken, and the used sectors are that prefix and the cost of all files |
| Defragmentation.StaysFragmented | a3/fs/fsutil2.c:264-338 | a concrete case that ends in a fragmented file after defragment: format 100 sectors, create a file, fail to create another under its name, replace the file by one of three sectors |
| Defragmentation.Defragment | a3/fs/fsutil2.c:265-338 | every name, length, the listing order and the number of free sectors are kept, no sector is lost, it never runs out of space, bytes are kept exactly when every file ends with a NUL, the files end up one after the other in the first sectors for plain files, and none is fragmented exactly when no such place is broken; on a prefix none is and the used sectors are a prefix again |
| Sessions.MakeFile | a3/fs/filesys.c:54-88 | what filesys_create returns, how many sectors it leaves free, how many it loses and whether the map's inode survives follow from the names, the lengths, the number of free sectors and the number of directory slots alone |
| Sessions.Step | a3/fs/filesys.c:54-138 | one creation, removal, write or read returns the outcome, and leaves the names, bytes, free sectors, slots and intactness, that those before it determine |
| Sessions.Run | a3/fs/filesys.c:54-138 | any run of creations, removals, writes and reads on any paths returns what the machine over names, bytes, free sectors and slots returns, ends in its state and loses exactly as many sectors, failed operations included; it stops early exactly when an operation fails on a file or directory that has index blocks |
| Sessions.Lifetime | a3/fs/filesys.c:20-138 | format, any such run, restart from the device alone: the map is read back exactly when sectors never ran out at an index block, then the files are there as the run left them, and the marked sectors that belong to no file are exactly as many as the failed operations lost |

## Left out

- Volumes.Volume.WriteAt: the entries of the written file's open inode after a write that did not fit, which lead to sectors beyond the file's length, and what further writes through the same handle make of them; which sectors those are and what was written is stated.
- Volumes.Volume.IndexToSector: an index behind an index block that is not allocated, for which the code would read sector 0; its only caller asks for bytes within the file's length.
- Volumes.Volume.Allocate: `free_map_allocate` for more than one sector, which no caller asks for; its rollback never runs here, because the write of the map is complete, and is modelled in `FreeMaps.AllocateZeroed`.
- Inodes.OpenInode: the list of open inodes and the counting of openers; an inode has one live handle, and the root directory's is read anew where a failed creation closes it.
- FileSystems.FileSystem.Create: when the directory has more than 123 sectors and cannot grow, what the later operations find, because its index blocks may keep entries beyond its end; that no byte changed, which sectors were taken and what became of the map's inode is stated. The buffers for the parts of a path, which are one byte short for a name without a slash.
- FileSystems.FileSystem.WriteFile: the same for a write that does not fit to a file of more than 123 sectors.
- FileSystems.FileSystem.Remove: a path that leads through a plain file, which the code reads as a directory.
- Formatting.Format: a device too small for the map and the directory; the program prints a message and goes on with whatever inodes the device holds in its first two sectors.
- Formatting.CreateZeroed: removals, and writes that extend a file, after a start with a zeroed map.
- OpenFiles.File.Read: a negative position, as a write of one byte at position 0 leaves it: the code then asks for sector 0xFFFFFFFF and copies from in front of its bounce buffer, which the language leaves undefined.
- OpenFiles.File.Write: a negative position, for the same reason, and a size of 0, for which the code writes the byte before the buffer.
- Sessions.Run: what follows an operation that fails on a file or a directory of more than 123 sectors; removals through folders that are files; handles on the directory itself; writes of no bytes.
- Defragmentation.Defragment: empty files, for which `file_write` writes the byte before the buffer; the handles it leaves in the file table; and the list head it leaves pointing at freed nodes, so that a second call is not modelled.
- The table of open files (`file.c`), which maps names to handles.
- Deny-write bookkeeping on open files; the effect of a denied write is modelled.
- Directories other than the root, the current directory and open counts of directories.
- Padding bytes of the inode's flag word, which are zero.
- Failed memory allocations, among them a stack too small for the recursion of a zeroed map, and what the program does after a failed assertion, which prints a message and returns.
- The block device and its partitions: the device is an array of 512-byte blocks.
- `list_max`, `list_min`, `is_sorted` and the iteration helpers of the list: they would only add easy members.
- `recover`, `copy_in`, `copy_out`, `find_file` and the printing of fragmentation figures: host files, ad hoc scanning and output.
- The shell, its paging memory and its scheduler in `a1`, `a2` and the rest of `a3`.
