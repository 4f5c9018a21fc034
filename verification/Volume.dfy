/** The file-system volume: inode.c and free-map.c, which call each other, over the buffer cache
    and the packed free map. */
module Volumes {
  import opened Blocks
  import opened Layout
  import opened Content
  import opened Reserving
  import Cache
  import Bitmaps

  /** block_sector_t -1 */
  const NO_SECTOR: nat := 0xFFFF_FFFF

  /** struct inode, with one live handle for each open inode. */
  class Inode {
    const sector: nat
    var removed: bool
    var denyWriteCnt: nat
    var data: InodeDisk

    constructor (sector: nat, data: InodeDisk)
      ensures this.sector == sector && this.data == data && !removed && denyWriteCnt == 0
    {
      this.sector := sector;
      this.data := data;
      removed := false;
      denyWriteCnt := 0;
    }
  }

  /** The bits of the free map. */
  function UsedBits(tags: seq<Tag>): (r: seq<bool>)
    ensures |r| == |tags|
  {
    seq(|tags|, t requires 0 <= t < |tags| => tags[t] != Free)
  }

  predicate OpenMap(b: bool) { b }

  predicate OpenStore(b: bool) { b }

  /** The sectors that free_map_init marks: the inodes of the free map and of the root directory. */
  function FormattedTags(n: nat): seq<Tag> {
    seq(n, t requires 0 <= t => if t <= 1 then Own(t, -1) else Free)
  }

  class Volume {
    const cache: Cache.BufferCache
    const freeMap: Bitmaps.Bitmap
    /** free_map_file's inode, or null while the free map has no file. */
    var freeMapFile: Inode?

    /** The flat disk behind the cache, the use of every sector, the free map file's sectors. */
    ghost var disk: seq<Block>
    ghost var tags: seq<Tag>
    ghost var fmSecs: seq<nat>

    /** The free map shares no memory with the cache. */
    ghost predicate Apart() {
      && (freeMap as object) != cache && (freeMap as object) != cache.cache && (freeMap as object) != cache.device
      && (freeMap.bits as object) != cache && (freeMap.bits as object) != cache.cache
      && (freeMap.bits as object) != cache.device
    }

    /** The cache and the bitmap represent DISK and TAGS. */
    ghost predicate Represents()
      reads this, cache, cache.cache, cache.device, freeMap, freeMap.bits
    {
      && Apart() && cache.Valid() && freeMap.Valid()
      && disk == cache.Disk()
      && |tags| == freeMap.bitCnt
      && freeMap.Bits() == UsedBits(tags)
    }

    /** The representation invariant. Callers need only that it holds, so its body is opened only
        where the term OpenStore(true) is mentioned. */
    ghost predicate Base()
      reads this, cache, cache.cache, cache.device, freeMap, freeMap.bits
    {
      && |disk| < NO_SECTOR && |disk| == |tags| + 1 && |tags| >= 2
      && forall b {:trigger OpenStore(b)} :: OpenStore(b) ==> Represents()
    }

    /** buffer_cache_init and free_map_init over a device of at least three sectors; the free map
        has no file yet. */
    constructor (device: array<Block>, slots: nat)
      requires 3 <= device.Length < NO_SECTOR && slots > 0
      ensures Ok() && freeMapFile == null && disk == device[..] && fmSecs == []
      ensures tags == FormattedTags(device.Length - 1)
      ensures cache.device == device && fresh(cache) && fresh(cache.cache) && fresh(freeMap) && fresh(freeMap.bits)
    {
      var c := new Cache.BufferCache(slots, device);
      var m := new Bitmaps.Bitmap(device.Length - 1);
      m.Mark(0);
      m.Mark(1);
      cache, freeMap, freeMapFile := c, m, null;
      disk := c.Disk();
      fmSecs := [];
      tags := FormattedTags(device.Length - 1);
      new;
      assert freeMap.Bits() == UsedBits(tags);
    }

    method ReadSector(s: nat) returns (b: Block)
      requires Base() && s < |disk|
      modifies cache, cache.cache, cache.device
      ensures Base() && b == disk[s]
    {
      assert OpenStore(true);
      b := cache.Read(s);
    }

    method WriteSector(s: nat, b: Block)
      requires Base() && s < |disk|
      modifies this`disk, cache, cache.cache, cache.device
      ensures Base() && disk == old(disk)[s := b]
    {
      assert OpenStore(true);
      cache.Write(s, b);
      disk := cache.Disk();
    }

    /** bitmap_scan_and_flip(free_map, 0, 1, false): takes the first free sector. */
    method TakeFree(ghost tag: Tag) returns (ok: bool, s: nat)
      requires Base() && tag != Free
      modifies this`tags, freeMap.bits
      ensures Base()
      ensures ok <==> FreeList(old(tags)) != []
      ensures ok ==> s == FreeList(old(tags))[0] && s < |tags| && tags == old(tags)[s := tag]
      ensures !ok ==> tags == old(tags)
    {
      assert OpenStore(true);
      s := freeMap.ScanAndFlip(0, 1, false);
      ok := s != Bitmaps.BITMAP_ERROR;
      if ok {
        assert UsedBits(tags)[s] == false;
        forall t | 0 <= t < s
          ensures tags[t] != Free
        {
          assert !Bitmaps.RunAt(old(freeMap.Bits()), t, 1, false);
        }
        TakeFirstFree(tags, s, tag);
        tags := tags[s := tag];
        assert freeMap.Bits() == UsedBits(tags);
      } else {
        forall t | 0 <= t < |tags|
          ensures tags[t] != Free
        {
          assert !Bitmaps.RunAt(freeMap.Bits(), t, 1, false);
        }
        NoneFree(tags);
      }
    }

    /** bitmap_set_multiple(free_map, sector, 1, false), whose ASSERT asks for a used sector. */
    method GiveBack(s: nat)
      requires Base() && s < |tags| && tags[s] != Free
      modifies this`tags, freeMap.bits
      ensures Base() && tags == old(tags)[s := Free]
    {
      assert OpenStore(true);
      freeMap.SetMultiple(s, 1, false);
      tags := tags[s := Free];
      assert freeMap.Bits() == UsedBits(tags);
    }

    /** num_free_sectors */
    method NumFreeSectors() returns (n: nat)
      requires Base()
      ensures n == |FreeList(tags)|
    {
      assert OpenStore(true);
      n := freeMap.Count(0, freeMap.bitCnt, false);
      CountIsFree(tags, 0);
    }

    /** bitmap_file_size(free_map) */
    method MapFileSize() returns (n: Offset)
      requires Ok()
      ensures n == Bitmaps.ByteCnt(|tags|)
    {
      assert OpenMap(true);
      assert OpenStore(true);
      n := Bitmaps.ByteCnt(freeMap.bitCnt);
    }

    lemma {:induction false} CountIsFree(tags: seq<Tag>, i: nat)
      requires i <= |tags|
      ensures Bitmaps.CountIn(UsedBits(tags), i, |tags|, false) == |FreeFrom(tags, i)|
      decreases |tags| - i
    {
      if i < |tags| {
        CountIsFree(tags, i + 1);
        Bitmaps.CountSplit(UsedBits(tags), i, i + 1, |tags|, false);
      }
    }

    /** On disk D with owners TG, the free map file is well formed and just long enough for the bitmap. */
    ghost predicate MapFileIn(d: seq<Block>, tg: seq<Tag>)
      reads this, freeMapFile
    {
      freeMapFile != null ==>
        && freeMapFile.sector == 0 && !freeMapFile.removed && freeMapFile.denyWriteCnt == 0
        && IsFile(d, tg, 0, freeMapFile.data, fmSecs)
        && freeMapFile.data.length == Bitmaps.ByteCnt(|tg|)
    }

    /** On disk D with owners TG, the free map file holds the bits of the free map. */
    ghost predicate MapSyncedIn(d: seq<Block>, tg: seq<Tag>)
      reads this, freeMapFile
    {
      freeMapFile != null ==> Bytes(d, fmSecs, freeMapFile.data.length) == Bitmaps.Image(UsedBits(tg))
    }

    /** The invariant of the volume, opened by OpenMap(true). */
    ghost predicate Ok()
      reads this, freeMapFile, cache, cache.cache, cache.device, freeMap, freeMap.bits
    {
      |tags| + 1 == |disk| && Sound(true) == true
    }

    /** The invariant while the free map has changed and has not yet been written to its file. */
    ghost predicate Stale()
      reads this, freeMapFile, cache, cache.cache, cache.device, freeMap, freeMap.bits
    {
      |tags| + 1 == |disk| && Sound(false) == true
    }

    ghost predicate Sound(synced: bool)
      reads this, freeMapFile, cache, cache.cache, cache.device, freeMap, freeMap.bits
    {
      && 2 <= |tags| && |tags| + 1 == |disk| < NO_SECTOR
      && forall b {:trigger OpenMap(b)} :: OpenMap(b) ==>
           Base() && tags[0] == Own(0, -1) && MapFileIn(disk, tags) && (synced ==> MapSyncedIn(disk, tags))
    }

    /** What a write to INODE finds and leaves: the free map file is itself written while stale. */
    ghost predicate Ready(inode: Inode)
      reads this, freeMapFile, cache, cache.cache, cache.device, freeMap, freeMap.bits
    {
      if inode == freeMapFile then Stale() else Ok()
    }

    // ----- Reading and writing within the allocated sectors -----

    /** index_to_sector */
    method IndexToSector(d: InodeDisk, index: nat, ghost secs: seq<nat>) returns (r: nat)
      requires Base() && Rep(disk, d, secs)
      requires PathIn(|secs|, index)
      modifies cache, cache.cache, cache.device
      ensures Base()
      ensures index < MAX_SECTORS ==> r == At(secs, Pos(index))
      ensures index >= MAX_SECTORS ==> r == NO_SECTOR
    {
      EntryPath(disk, d, secs, index);
      if index < DIRECT {
        return d.direct[index];
      }
      if index < DIRECT + PER_BLOCK {
        var b := ReadSector(d.indirect);
        return Words(b)[index - DIRECT];
      }
      if index < DIRECT + PER_BLOCK + PER_BLOCK * PER_BLOCK {
        var indexFirst := (index - SINGLE_END) / PER_BLOCK;
        var indexSecond := (index - SINGLE_END) % PER_BLOCK;
        var b := ReadSector(d.doubly);
        b := ReadSector(Words(b)[indexFirst]);
        return Words(b)[indexSecond];
      }
      return NO_SECTOR;
    }

    /** The file INODE owns SECS and every one of its sectors is on the device. */
    ghost predicate Holds(inode: Inode, secs: seq<nat>)
      reads this, inode
    {
      IsFile(disk, tags, inode.sector, inode.data, secs)
    }

    /** The entries of INODE lead to its bytes in the sectors SECS, whoever owns them. */
    ghost predicate Readable(inode: Inode, secs: seq<nat>)
      reads this, inode
    {
      && Rep(disk, inode.data, secs)
      && Sectors(inode.data.length) <= MAX_SECTORS && |secs| == Cost(Sectors(inode.data.length))
      && forall q :: 0 <= q < |secs| ==> secs[q] < |disk|
    }

    /** byte_to_sector */
    method ByteToSector(inode: Inode, pos: int, ghost secs: seq<nat>) returns (r: nat)
      requires Base() && Readable(inode, secs)
      modifies cache, cache.cache, cache.device
      ensures Base()
      ensures r == NO_SECTOR <==> !(0 <= pos < inode.data.length)
      ensures r != NO_SECTOR ==> Pos(pos / 512) < |secs| && r == secs[Pos(pos / 512)]
    {
      if 0 <= pos < inode.data.length {
        InFile(pos / 512, Sectors(inode.data.length));
        AllocatedPath(|secs|, pos / 512);
        r := IndexToSector(inode.data, pos / 512, secs);
      } else {
        r := NO_SECTOR;
      }
    }

    /** How much of a transfer of LEFT bytes at AT fits in one sector of the file. */
    function ChunkSize(length: nat, at: nat, left: nat): (c: int)
      ensures at < length && left > 0 ==> 0 < c <= left && at + c <= length && at % 512 + c <= 512
      ensures at >= length && left > 0 ==> c <= 0
    {
      var inodeLeft := length - at;
      var sectorLeft := 512 - at % 512;
      var minLeft := if inodeLeft < sectorLeft then inodeLeft else sectorLeft;
      if left < minLeft then left else minLeft
    }

    /** One iteration of inode_read_at; nothing is read at or past the end of the file. */
    method ReadChunk(inode: Inode, at: nat, left: nat, ghost secs: seq<nat>) returns (piece: seq<Byte>)
      requires Base() && Readable(inode, secs) && left > 0
      modifies cache, cache.cache, cache.device
      ensures Base() && |piece| <= left
      ensures at >= inode.data.length ==> piece == []
      ensures at < inode.data.length ==> 0 < |piece| && at + |piece| <= inode.data.length
      ensures at < inode.data.length ==> piece == Bytes(disk, secs, inode.data.length)[at..at + |piece|]
    {
      var sectorIdx := ByteToSector(inode, at, secs);
      var chunkSize := ChunkSize(inode.data.length, at, left);
      if chunkSize <= 0 {
        return [];
      }
      piece := ReadPiece(sectorIdx, at % 512, chunkSize);
      forall k | 0 <= k < chunkSize
        ensures piece[k] == ByteAt(disk, secs, at + k)
      {
        PatchIsRead(at, at / 512);
        PatchIsRead(at + k, at / 512);
      }
    }

    /** inode_read_at: exactly the slice that lies before the end of the file. */
    method ReadAt(inode: Inode, size: nat, offset: nat, ghost secs: seq<nat>) returns (buffer: seq<Byte>)
      requires Base() && Readable(inode, secs)
      modifies cache, cache.cache, cache.device
      ensures Base() && buffer == Slice(Bytes(disk, secs, inode.data.length), offset, size)
    {
      buffer := [];
      var left, at := size, offset;
      ghost var data := Bytes(disk, secs, inode.data.length);
      while left > 0
        invariant Base() && at == offset + |buffer| && 0 <= left == size - |buffer|
        invariant buffer == Slice(data, offset, |buffer|)
        decreases left
      {
        var piece := ReadChunk(inode, at, left, secs);
        if |piece| == 0 {
          SliceEnd(data, offset, |buffer|, size);
          break;
        }
        SliceMore(data, offset, buffer, piece);
        buffer := buffer + piece;
        left := left - |piece|;
        at := at + |piece|;
      }
    }

    /** A full sector straight into the caller's buffer, or part of one through the bounce buffer. */
    method ReadPiece(s: nat, ofs: nat, size: nat) returns (piece: seq<Byte>)
      requires Base() && s < |disk| && ofs + size <= 512
      modifies cache, cache.cache, cache.device
      ensures Base() && piece == disk[s][ofs..ofs + size]
    {
      var bounce := ReadSector(s);
      if ofs == 0 && size == 512 {
        piece := bounce;
      } else {
        piece := bounce[ofs..ofs + size];
      }
    }

    /** One sector of inode_write_at: whole, or patched through the bounce buffer. */
    method WritePiece(s: nat, ofs: nat, piece: seq<Byte>)
      requires Base() && s < |disk| && ofs + |piece| <= 512
      modifies this`disk, cache, cache.cache, cache.device
      ensures Base() && disk == old(disk)[s := Patched(old(disk)[s], ofs, piece)]
    {
      if ofs == 0 && |piece| == 512 {
        WriteSector(s, piece);
        assert piece == Patched(old(disk)[s], ofs, piece);
      } else {
        var bounce := Zeros();
        if ofs > 0 || |piece| < 512 - ofs {
          bounce := ReadSector(s);
        }
        WriteSector(s, Patched(bounce, ofs, piece));
      }
    }

    /** One iteration of inode_write_at: the part of BUFFER from DONE on that fits in one sector. */
    method WriteChunk(inode: Inode, buffer: seq<Byte>, offset: nat, done: nat, ghost secs: seq<nat>) returns (chunk: nat)
      requires Base() && Holds(inode, secs) && done < |buffer| && offset + |buffer| <= inode.data.length
      modifies this`disk, cache, cache.cache, cache.device
      ensures Base() && 0 < chunk && done + chunk <= |buffer|
      ensures var at := offset + done;
              var s := secs[Pos(at / 512)];
              && at % 512 + chunk <= 512 && Pos(at / 512) < |secs| && s < |old(disk)|
              && disk == old(disk)[s := Patched(old(disk)[s], at % 512, buffer[done..done + chunk])]
    {
      var at := offset + done;
      var sectorIdx := ByteToSector(inode, at, secs);
      var chunkSize := ChunkSize(inode.data.length, at, |buffer| - done);
      chunk := chunkSize;
      WritePiece(sectorIdx, at % 512, buffer[done..done + chunk]);
    }

    /** The loop of inode_write_at, within the file's length. */
    method WriteChunks(inode: Inode, buffer: seq<Byte>, offset: nat, ghost secs: seq<nat>) returns (written: nat)
      requires Base() && Holds(inode, secs) && offset + |buffer| <= inode.data.length
      modifies this`disk, cache, cache.cache, cache.device
      ensures Base() && Holds(inode, secs) && written == |buffer|
      ensures Wrote(old(disk), disk, secs, offset, buffer)
      ensures DataOnly(old(disk), disk, tags, inode.sector) && (|buffer| == 0 ==> disk == old(disk))
    {
      written := 0;
      ghost var disk0 := disk;
      assert buffer[..0] == [];
      while written < |buffer|
        invariant Base() && Holds(inode, secs) && written <= |buffer|
        invariant Wrote(disk0, disk, secs, offset, buffer[..written])
        invariant DataOnly(disk0, disk, tags, inode.sector) && (written == 0 ==> disk == disk0)
      {
        ghost var disk1 := disk;
        var chunk := WriteChunk(inode, buffer, offset, written, secs);
        ChunkWritten(disk0, disk1, disk, tags, inode.sector, inode.data, secs, offset, buffer, written, chunk);
        written := written + chunk;
      }
      assert buffer[..written] == buffer;
    }

    // ----- Allocation, with the free map written through to its file -----

    /** bitmap_write(free_map, free_map_file). The file is exactly as long as the bitmap, so the
        write does not extend it, and the recursion into inode_write_at ends here. */
    method WriteMap()
      requires Stale() && freeMapFile != null
      modifies this`disk, this`tags, cache, cache.cache, cache.device, freeMap.bits
      ensures Ok() && DataOnly(old(disk), disk, tags, 0) && tags == old(tags)
      decreases 2, 0
    {
      assert OpenMap(true);
      assert OpenStore(true);
      var bytes := freeMap.ToBytes();
      ghost var disk0, tags0, d := disk, tags, freeMapFile.data;
      var written, secs := WriteAt(freeMapFile, bytes, 0, fmSecs);
      WrittenFacts(disk0, disk, tags0, tags, 0, d, d, fmSecs, secs, 0, bytes);
      WroteAll(old(disk), disk, fmSecs, freeMapFile.data.length, bytes);
    }

    /** free_map_allocate(1, ...): the first free sector, for position POS of file ID. */
    method Allocate(ghost id: nat, ghost pos: int) returns (ok: bool, s: nat)
      requires Ok() && (id != 0 || freeMapFile == null)
      modifies this`disk, this`tags, cache, cache.cache, cache.device, freeMap.bits
      ensures Ok() && DataOnly(old(disk), disk, tags, 0) && (freeMapFile == null ==> disk == old(disk))
      ensures ok <==> FreeList(old(tags)) != []
      ensures ok ==> s == FreeList(old(tags))[0] && 0 < s < |tags| && tags == old(tags)[s := Own(id, pos)]
      ensures !ok ==> tags == old(tags) && disk == old(disk)
      decreases 3, 0
    {
      assert OpenMap(true);
      if FreeList(tags) != [] {
        FirstFree(tags);
      }
      ok, s := TakeFree(Own(id, pos));
      if ok && freeMapFile != null {
        WriteMap();
      }
    }

    lemma MapFileFacts()
      requires Ok()
      ensures 2 <= |tags| && |tags| + 1 == |disk| < NO_SECTOR
      ensures tags[0] == Own(0, -1) && MapFileIn(disk, tags) && MapSyncedIn(disk, tags)
    {
      assert OpenMap(true);
    }

    lemma BitsAreTags()
      requires Ok()
      ensures freeMap.Valid() && freeMap.Bits() == UsedBits(tags)
    {
      assert OpenMap(true);
      assert OpenStore(true);
    }

    /** buffer_cache_close: the device itself then holds what the volume holds. */
    method CloseCache()
      requires Ok()
      modifies cache, cache.cache, cache.device
      ensures Ok() && cache.device[..] == disk
    {
      assert OpenMap(true);
      assert OpenStore(true);
      cache.Close();
    }

    /** Whatever file ID was given is written off: in use, and nobody's. */
    ghost method Abandon(id: nat)
      requires Ok() && id != 0
      modifies this`tags
      ensures Ok() && tags == Lose(old(tags), id)
    {
      assert OpenMap(true);
      assert OpenStore(true);
      tags := Lose(tags, id);
      assert UsedBits(tags) == UsedBits(old(tags));
      if freeMapFile != null {
        UntouchedFile(disk, disk, old(tags), tags, 0, freeMapFile.data, fmSecs);
      }
    }

    /** The same of what file ID was given from position FROM on. */
    ghost method AbandonFrom(id: nat, from: nat)
      requires Ok() && id != 0
      modifies this`tags
      ensures Ok() && tags == LoseFrom(old(tags), id, from)
    {
      assert OpenMap(true);
      assert OpenStore(true);
      tags := LoseFrom(tags, id, from);
      assert UsedBits(tags) == UsedBits(old(tags));
      if freeMapFile != null {
        UntouchedFile(disk, disk, old(tags), tags, 0, freeMapFile.data, fmSecs);
      }
    }

    // ----- Reserving sectors -----

    /** File ID may grow from SECS. */
    ghost predicate Growing(id: nat, secs: seq<nat>)
      reads this, freeMapFile, cache, cache.cache, cache.device, freeMap, freeMap.bits
    {
      Ok() && (id != 0 || freeMapFile == null) && Claims(tags, id, secs)
    }

    /** inode_reserve_indirect at level 0: takes and zeroes a sector where the entry is null. */
    method ReserveSector(entry: Word, ghost id: nat, ghost secs: seq<nat>, ghost p: nat)
      returns (ok: bool, e: Word, ghost secs1: seq<nat>)
      requires Growing(id, secs) && !IsIndex(p)
      requires Placeable(disk, tags, secs, p) && entry == At(secs, p)
      modifies this`disk, this`tags, cache, cache.cache, cache.device, freeMap.bits
      ensures Ok()
      ensures ok <==> p < |secs| || FreeList(old(tags)) != []
      ensures ok ==> |secs1| == Max(|secs|, p + 1) && e == secs1[p]
                     && Reserved(old(disk), disk, old(tags), tags, id, secs, secs1, p, p)
      ensures !ok ==> RanOut(old(disk), disk, old(tags), tags, id, secs, secs1)
      decreases 4, 0, 0
    {
      ok, e, secs1 := true, entry, secs;
      if entry == 0 {
        var s;
        ok, s := Allocate(id, p);
        if !ok {
          MapFileFacts();
          RefusedOne(disk, tags, id, secs, p);
          return;
        }
        ghost var disk1 := disk;
        assert OpenMap(true);
        WriteOutside(s, Zeros());
        ReservedOne(old(disk), disk1, old(tags), id, secs, p, p);
        e, secs1 := s, secs + [s];
      } else {
        ReservedNothing(disk, tags, id, secs, p, p);
      }
    }

    /** buffer_cache_write to a sector outside the free map file. */
    method WriteOutside(s: nat, b: Block)
      requires Ok() && s < |disk|
      requires freeMapFile != null ==> s >= |tags| || !(tags[s].Own? && tags[s].id == 0 && tags[s].pos >= 0)
      modifies this`disk, cache, cache.cache, cache.device
      ensures Ok() && disk == old(disk)[s := b]
    {
      assert OpenMap(true);
      WriteSector(s, b);
      if freeMapFile != null {
        UntouchedFile(old(disk), disk, tags, tags, 0, freeMapFile.data, fmSecs);
      }
    }

    /** buffer_cache_read between changes of the free map. */
    method ReadBetween(s: nat) returns (b: Block)
      requires Ok() && s < |disk|
      modifies cache, cache.cache, cache.device
      ensures Ok() && b == disk[s]
    {
      assert OpenMap(true);
      b := ReadSector(s);
    }

    /** The first half of inode_reserve_indirect above level 0: allocates a null index block and
        reads it. A failed allocation is ignored (inode.c:380-384): sector 0 is then zeroed and
        read in place of the index block. */
    method EnterIndex(entry: Word, ghost level: nat, ghost id: nat, ghost secs: seq<nat>, ghost p: nat)
      returns (e: Word, ws: seq<Word>, ghost secs1: seq<nat>)
      requires Growing(id, secs)
      requires Placeable(disk, tags, secs, p) && entry == At(secs, p)
      requires IndexHome(level, p) && Tree(disk, secs, level, p)
      modifies this`disk, this`tags, cache, cache.cache, cache.device, freeMap.bits
      ensures Ok()
      ensures if p < |secs| || FreeList(old(tags)) != [] then
                && |secs1| == Max(|secs|, p + 1) && e == secs1[p]
                && Reserved(old(disk), disk, old(tags), tags, id, secs, secs1, p, p)
                && Kids(disk, secs1, level, p, ws)
              else
                && e == 0 && secs1 == secs && tags == old(tags) && ws == Words(Zeros())
                && Sector0(disk) == Zeros() && IsIndex(|secs|)
                && RanOut(old(disk), disk, old(tags), tags, id, secs, secs)
      decreases 4, 0, 0
    {
      e, secs1 := entry, secs;
      if entry == 0 {
        var ok, s := Allocate(id, p);
        if ok {
          e, secs1 := s, secs + [s];
        }
        ghost var disk1 := disk;
        assert OpenMap(true);
        WriteOutside(e, Zeros());
        if ok {
          ReservedOne(old(disk), disk1, old(tags), id, secs, p, p);
        } else {
          MapFileFacts();
          ChildHome(level, p, 0);
          RefusedOne(old(disk), tags, id, secs, p);
        }
      } else {
        ReservedNothing(disk, tags, id, secs, p, p);
      }
      var b := ReadBetween(e);
      ws := Words(b);
      if entry == 0 {
        KidsOfNew(disk, secs1, level, p, ws);
      }
    }

    /** One iteration of the loop of inode_reserve_indirect: entry i of the index block at position P. */
    method ReserveKid(ws: seq<Word>, i: nat, subsize: nat, level: nat, ghost id: nat, ghost secs: seq<nat>, ghost p: nat)
      returns (ok: bool, ws1: seq<Word>, ghost secs1: seq<nat>)
      requires Growing(id, secs)
      requires 1 <= level <= 2 && IndexHome(level, p) && i < PER_BLOCK && 0 < subsize <= Unit(level)
      requires Kids(disk, secs, level, p, ws)
      requires Placeable(disk, tags, secs, Child(level, p, i))
      modifies this`disk, this`tags, cache, cache.cache, cache.device, freeMap.bits
      ensures Ok()
      ensures ok <==> Missing(secs, Child(level, p, i) + LevelCost(level - 1, subsize)) <= |FreeList(old(tags))|
      ensures ok ==> var c := Child(level, p, i);
                     && |secs1| == Max(|secs|, c + LevelCost(level - 1, subsize))
                     && Reserved(old(disk), disk, old(tags), tags, id, secs, secs1, c, c + Span(level - 1))
                     && Kids(disk, secs1, level, p, ws1)
      ensures !ok ==> RanOut(old(disk), disk, old(tags), tags, id, secs, secs1)
      decreases 4, level, 0
    {
      assert Open(true);
      ghost var c, disk1 := Child(level, p, i), disk;
      ChildHome(level, p, i);
      ChildReach(level, p, i, subsize);
      var w;
      ok, w, secs1 := ReserveIndirect(ws[i], subsize, level - 1, id, secs, c);
      ws1 := ws;
      if ok {
        KidStep(disk1, disk, tags, id, secs, secs1, level, p, ws, i, w);
        ws1 := ws[i := w];
      }
    }

    /** The same iteration within the loop that started on DISK0, TAGS0 and SECS0. */
    method ReserveNext(ws: seq<Word>, i: nat, left: nat, level: nat, ghost num: nat, ghost id: nat, ghost secs: seq<nat>, ghost p: nat,
                       ghost disk0: seq<Block>, ghost tags0: seq<Tag>, ghost secs0: seq<nat>)
      returns (ok: bool, ws1: seq<Word>, ghost secs1: seq<nat>)
      requires Ok() && (id != 0 || freeMapFile == null)
      requires 1 <= level <= 2 && IndexHome(level, p) && 0 < num <= Capacity(level) && i < Entries(level, num)
      requires Reserved(disk0, disk, tags0, tags, id, secs0, secs, p, p + Span(level))
      requires Kids(disk, secs, level, p, ws)
      requires Progress(|secs0|, |FreeList(tags0)|, |secs|, level, p, num, i, left) && Placeable(disk0, tags0, secs0, p + 1)
      modifies this`disk, this`tags, cache, cache.cache, cache.device, freeMap.bits
      ensures Ok() && Min(left, Unit(level)) <= left
      ensures ok ==> Reserved(disk0, disk, tags0, tags, id, secs0, secs1, p, p + Span(level))
      ensures ok ==> Kids(disk, secs1, level, p, ws1)
      ensures ok ==> Progress(|secs0|, |FreeList(tags0)|, |secs1|, level, p, num, i + 1, left - Min(left, Unit(level)))
      ensures !ok ==>
                RanOut(disk0, disk, tags0, tags, id, secs0, secs1) && Missing(secs0, p + 1 + KidsCost(level, num)) > |FreeList(tags0)|
      decreases 4, level, 1
    {
      ghost var n0, f0, c := |secs0|, |FreeList(tags0)|, Child(level, p, i);
      ghost var disk1, tags1 := disk, tags;
      ReservedFacts(disk0, disk1, tags0, tags1, id, secs0, secs, p, p + Span(level));
      KidsLength(disk, secs, level, p, ws);
      ProgressCall(n0, f0, |secs|, level, p, num, i, left);
      MapFileFacts();
      PlaceableLater(disk0, disk1, tags0, tags1, id, secs0, secs, p, p + Span(level), p + 1, c);
      ok, ws1, secs1 := ReserveKid(ws, i, Min(left, Unit(level)), level, id, secs, p);
      if ok {
        KidReserved(disk0, disk1, disk, tags0, tags1, tags, id, secs0, secs, secs1, level, p, num, i, left);
      } else {
        RanOutAfter(disk0, disk1, disk, tags0, tags1, tags, id, secs0, secs, secs1, p, p + Span(level));
      }
    }

    /** The loop of inode_reserve_indirect over the entries of an index block at position P. */
    method ReserveKids(ws: seq<Word>, num: nat, level: nat, ghost id: nat, ghost secs: seq<nat>, ghost p: nat)
      returns (ok: bool, ws1: seq<Word>, ghost secs1: seq<nat>)
      requires Growing(id, secs)
      requires 1 <= level <= 2 && IndexHome(level, p) && 0 < num <= Capacity(level)
      requires Kids(disk, secs, level, p, ws)
      requires Placeable(disk, tags, secs, p + 1)
      modifies this`disk, this`tags, cache, cache.cache, cache.device, freeMap.bits
      ensures Ok()
      ensures ok <==> Missing(secs, p + 1 + KidsCost(level, num)) <= |FreeList(old(tags))|
      ensures ok ==> |secs1| == Max(|secs|, p + 1 + KidsCost(level, num))
      ensures ok ==> Reserved(old(disk), disk, old(tags), tags, id, secs, secs1, p, p + Span(level))
      ensures ok ==> Kids(disk, secs1, level, p, ws1)
      ensures !ok ==> RanOut(old(disk), disk, old(tags), tags, id, secs, secs1)
      decreases 4, level, 2
    {
      ok, ws1, secs1 := true, ws, secs;
      ghost var disk0, tags0 := disk, tags;
      ReservedNothing(disk, tags, id, secs, p, p + Span(level));
      ProgressStart(|secs|, |FreeList(tags)|, level, p, num);
      var left: nat := num;
      for i := 0 to Entries(level, num)
        invariant Ok() && ok
        invariant Progress(|secs|, |FreeList(tags0)|, |secs1|, level, p, num, i, left)
        invariant Reserved(disk0, disk, tags0, tags, id, secs, secs1, p, p + Span(level))
        invariant Kids(disk, secs1, level, p, ws1)
      {
        ok, ws1, secs1 := ReserveNext(ws1, i, left, level, num, id, secs1, p, disk0, tags0, secs);
        if !ok {
          return;
        }
        left := left - Min(left, Unit(level));
      }
      ProgressEnd(|secs|, |FreeList(tags0)|, |secs1|, level, p, num, left);
    }

    /** inode_reserve_indirect: succeeds exactly when enough sectors are free, and then takes the
        first free ones in allocation order. */
    method ReserveIndirect(entry: Word, num: nat, level: nat, ghost id: nat, ghost secs: seq<nat>, ghost p: nat)
      returns (ok: bool, e: Word, ghost secs1: seq<nat>)
      requires Growing(id, secs)
      requires level <= 2 && (level == 0 ==> !IsIndex(p)) && (level > 0 ==> IndexHome(level, p))
      requires 0 < num <= Capacity(level)
      requires Placeable(disk, tags, secs, p) && entry == At(secs, p) && Tree(disk, secs, level, p)
      modifies this`disk, this`tags, cache, cache.cache, cache.device, freeMap.bits
      ensures Ok()
      ensures ok <==> Missing(secs, p + LevelCost(level, num)) <= |FreeList(old(tags))|
      ensures ok ==> |secs1| == Max(|secs|, p + LevelCost(level, num)) && e == secs1[p]
      ensures ok ==> Reserved(old(disk), disk, old(tags), tags, id, secs, secs1, p, p + Span(level))
      ensures ok ==> Tree(disk, secs1, level, p)
      ensures !ok ==> RanOut(old(disk), disk, old(tags), tags, id, secs, secs1)
      decreases 4, level, 4
    {
      if level == 0 {
        ok, e, secs1 := ReserveSector(entry, id, secs, p);
      } else {
        var ws;
        ghost var disk0, tags0 := disk, tags;
        ok, e, ws, secs1 := ReserveBelow(entry, num, level, id, secs, p);
        if ok {
          ReservedFacts(disk0, disk, tags0, tags, id, secs, secs1, p, p + Span(level));
          KidsLength(disk, secs1, level, p, ws);
          assert OpenMap(true);
          IndexWritten(disk0, disk, tags0, tags, id, secs, secs1, level, p, ws);
          WriteOutside(e, FromWords(ws));
        }
      }
    }

    /** inode_reserve_indirect above level 0, up to the point where the entries are written back. */
    method ReserveBelow(entry: Word, num: nat, level: nat, ghost id: nat, ghost secs: seq<nat>, ghost p: nat)
      returns (ok: bool, e: Word, ws: seq<Word>, ghost secs1: seq<nat>)
      requires Growing(id, secs)
      requires 1 <= level <= 2 && IndexHome(level, p) && 0 < num <= Capacity(level)
      requires Placeable(disk, tags, secs, p) && entry == At(secs, p) && Tree(disk, secs, level, p)
      modifies this`disk, this`tags, cache, cache.cache, cache.device, freeMap.bits
      ensures Ok()
      ensures ok <==> Missing(secs, p + LevelCost(level, num)) <= |FreeList(old(tags))|
      ensures ok ==> |secs1| == Max(|secs|, p + LevelCost(level, num)) && e == secs1[p]
      ensures ok ==> Reserved(old(disk), disk, old(tags), tags, id, secs, secs1, p, p + Span(level))
      ensures ok ==> Kids(disk, secs1, level, p, ws)
      ensures !ok ==> RanOut(old(disk), disk, old(tags), tags, id, secs, secs1)
      decreases 4, level, 3
    {
      ghost var disk0, tags0 := disk, tags;
      ghost var secsI;
      e, ws, secsI := EnterIndex(entry, level, id, secs, p);
      ghost var disk1, tags1 := disk, tags;
      if p < |secs| || FreeList(tags0) != [] {
        ReservedFacts(disk0, disk1, tags0, tags1, id, secs, secsI, p, p);
      } else {
        KidsOfNew(disk, secsI, level, p, ws);
      }
      ok, ws, secs1 := ReserveKids(ws, num, level, id, secsI, p);
      if ok {
        BelowReserved(disk0, disk1, disk, tags0, tags1, tags, id, secs, secsI, secs1, p, p + Span(level));
      } else {
        RanOutInTheEnd(disk0, disk1, disk, tags0, tags1, tags, id, secs, secsI, secs1, p, p);
      }
    }

    /** The direct zone of inode_reserve. */
    method ReserveDirect(d: InodeDisk, l: nat, ghost id: nat, ghost secs: seq<nat>)
      returns (ok: bool, d1: InodeDisk, ghost secs1: seq<nat>)
      requires Growing(id, secs) && Zones(disk, d, secs) && l <= DIRECT
      modifies this`disk, this`tags, cache, cache.cache, cache.device, freeMap.bits
      ensures Ok()
      ensures ok <==> Missing(secs, l) <= |FreeList(old(tags))|
      ensures d1 == d.(direct := d1.direct) && (ok ==> |secs1| == Max(|secs|, l))
      ensures ok ==> Reserved(old(disk), disk, old(tags), tags, id, secs, secs1, 0, END)
      ensures ok ==> Zones(disk, d1, secs1)
      ensures !ok ==> RanOut(old(disk), disk, old(tags), tags, id, secs, secs1)
      ensures l == 0 ==> ok && disk == old(disk) && tags == old(tags) && d1 == d && secs1 == secs
      decreases 5, 0
    {
      ok, d1, secs1 := true, d, secs;
      ghost var disk0, tags0 := disk, tags;
      ReservedNothing(disk, tags, id, secs, 0, END);
      for i := 0 to l
        invariant Ok() && |secs1| == Max(|secs|, i) && d1 == d.(direct := d1.direct)
        invariant l == 0 ==> disk == disk0 && tags == tags0 && d1 == d && secs1 == secs
        invariant Reserved(disk0, disk, tags0, tags, id, secs, secs1, 0, END)
        invariant Zones(disk, d1, secs1)
      {
        ghost var disk1, tags1, secsI := disk, tags, secs1;
        ReservedFacts(disk0, disk, tags0, tags, id, secs, secs1, 0, END);
        ZonesEntries(disk, d1, secs1);
        IndexIs(i);
        var w;
        ok, w, secs1 := ReserveSector(d1.direct[i], id, secs1, i);
        if !ok {
          RanOutAfter(disk0, disk1, disk, tags0, tags1, tags, id, secs, secsI, secs1, 0, END);
          return;
        }
        ReservedMore(disk0, disk1, disk, tags0, tags1, tags, id, secs, secsI, secs1, 0, END, i, i);
        ReservedFacts(disk1, disk, tags1, tags, id, secsI, secs1, i, i);
        DirectZone(disk1, disk, tags1, tags, id, d1, secsI, secs1, i, w);
        d1 := d1.(direct := d1.direct[i := w]);
      }
      ReservedFacts(disk0, disk, tags0, tags, id, secs, secs1, 0, END);
    }

    /** The step of inode_reserve from a zone's null or present entry to the grown subtree. */
    method ReserveZone(d: InodeDisk, l: nat, level: nat, ghost id: nat, ghost secs: seq<nat>)
      returns (ok: bool, d1: InodeDisk, ghost secs1: seq<nat>)
      requires Growing(id, secs) && Zones(disk, d, secs) && 1 <= level <= 2 && 0 < l <= Capacity(level)
      requires |secs| >= ZoneStart(level)
      modifies this`disk, this`tags, cache, cache.cache, cache.device, freeMap.bits
      ensures Ok()
      ensures ok <==> Missing(secs, ZoneStart(level) + LevelCost(level, l)) <= |FreeList(old(tags))|
      ensures ok ==> |secs1| == Max(|secs|, ZoneStart(level) + LevelCost(level, l))
      ensures d1 == if level == 1 then d.(indirect := d1.indirect) else d.(doubly := d1.doubly)
      ensures ok ==> Reserved(old(disk), disk, old(tags), tags, id, secs, secs1, 0, END)
      ensures ok ==> Zones(disk, d1, secs1)
      ensures !ok ==> RanOut(old(disk), disk, old(tags), tags, id, secs, secs1)
      decreases 5, 0
    {
      ghost var disk0, tags0, p := disk, tags, ZoneStart(level);
      ZonesEntries(disk, d, secs);
      ZoneHome(level);
      var e;
      ok, e, secs1 := ReserveIndirect(if level == 1 then d.indirect else d.doubly, l, level, id, secs, p);
      d1 := if level == 1 then d.(indirect := e) else d.(doubly := e);
      if ok {
        ReservedWider(disk0, disk, tags0, tags, id, secs, secs1, p, p + Span(level), 0, END);
        if level == 1 {
          IndirectZone(disk0, disk, tags0, tags, id, d, secs, secs1, e);
        } else {
          DoublyZone(disk0, disk, tags0, tags, id, d, secs, secs1, e);
        }
      }
    }

    /** The same, given what was reserved since DISK0 for a file that is to hold TOTAL data sectors. */
    method ReserveZoneOf(d: InodeDisk, l: nat, level: nat, ghost total: nat, ghost id: nat, ghost secs: seq<nat>,
                         ghost disk0: seq<Block>, ghost tags0: seq<Tag>, ghost secs0: seq<nat>)
      returns (ok: bool, d1: InodeDisk, ghost secs1: seq<nat>)
      requires Growing(id, secs) && Zones(disk, d, secs) && 1 <= level <= 2 && 0 < l <= Capacity(level)
      requires |secs| >= ZoneStart(level) && ZoneStart(level) + LevelCost(level, l) <= Cost(Min(total, MAX_SECTORS))
      requires Reserved(disk0, disk, tags0, tags, id, secs0, secs, 0, END)
      modifies this`disk, this`tags, cache, cache.cache, cache.device, freeMap.bits
      ensures Ok()
      ensures ok <==> Missing(secs, ZoneStart(level) + LevelCost(level, l)) <= |FreeList(old(tags))|
      ensures d1 == if level == 1 then d.(indirect := d1.indirect) else d.(doubly := d1.doubly)
      ensures ok ==> |secs1| == Max(|secs|, ZoneStart(level) + LevelCost(level, l))
                     && |FreeList(tags)| + |secs1| == |FreeList(old(tags))| + |secs| && Claims(tags, id, secs1)
      ensures ok ==> Reserved(disk0, disk, tags0, tags, id, secs0, secs1, 0, END)
      ensures ok ==> Zones(disk, d1, secs1)
      ensures !ok ==> Refused(disk0, disk, tags0, tags, id, secs0, secs1, total)
      decreases 5, 1
    {
      ghost var disk1, tags1 := disk, tags;
      ok, d1, secs1 := ReserveZone(d, l, level, id, secs);
      if ok {
        ReservedFacts(disk1, disk, tags1, tags, id, secs, secs1, 0, END);
        ReservedMore(disk0, disk1, disk, tags0, tags1, tags, id, secs0, secs, secs1, 0, END, 0, END);
      } else {
        ReservedFacts(disk0, disk1, tags0, tags1, id, secs0, secs, 0, END);
        RanOutAfter(disk0, disk1, disk, tags0, tags1, tags, id, secs0, secs, secs1, 0, END);
        ToRefused(disk0, disk, tags0, tags, id, secs0, secs1, ZoneStart(level) + LevelCost(level, l), total);
      }
    }

    /** inode_reserve: makes room for LENGTH bytes. It succeeds exactly when the length is
        supported, which a negative one is not, and enough sectors are free, and then takes the
        first free ones. */
    method Reserve(d: InodeDisk, length: int, ghost id: nat, ghost secs: seq<nat>)
      returns (ok: bool, d1: InodeDisk, ghost secs1: seq<nat>)
      requires Growing(id, secs) && Zones(disk, d, secs)
      modifies this`disk, this`tags, cache, cache.cache, cache.device, freeMap.bits
      ensures Ok()
      ensures ok <==> length >= 0 && Sectors(length) <= MAX_SECTORS && Missing(secs, Cost(Sectors(length))) <= |FreeList(old(tags))|
      ensures forall n: nat :: Fill(n, length) ==>
                (ok <==> n <= 16635 && Missing(secs, n + (if n > 123 then 1 else 0) + (if n > 251 then 1 + (n - 251 + 127) / 128 else 0))
                                       <= |FreeList(old(tags))|)
      ensures ok ==> |secs1| == Max(|secs|, Cost(Sectors(length)))
      ensures d1 == d.(direct := d1.direct, indirect := d1.indirect, doubly := d1.doubly)
      ensures ok ==> Reserved(old(disk), disk, old(tags), tags, id, secs, secs1, 0, END)
      ensures ok ==> Zones(disk, d1, secs1)
      ensures length <= 0 ==> disk == old(disk) && tags == old(tags) && d1 == d && secs1 == secs
      ensures !ok ==> Refused(old(disk), disk, old(tags), tags, id, secs, secs1, Wanted(length))
      decreases 6, 0
    {
      if length < 0 {
        RefusedNothing(disk, tags, id, secs);
        return false, d, secs;
      }
      var numSectors := Sectors(length);
      BytesCost(length);
      ghost var disk0, tags0, n := disk, tags, numSectors;
      CostOfZones(n);
      CostOfZones(Min(n, MAX_SECTORS));

      // direct blocks
      var l := Min(numSectors, DIRECT);
      ok, d1, secs1 := ReserveDirect(d, l, id, secs);
      numSectors := numSectors - l;
      if !ok {
        ToRefused(disk0, disk, tags0, tags, id, secs, secs1, l, n);
      } else if numSectors > 0 {
        ReservedFacts(disk0, disk, tags0, tags, id, secs, secs1, 0, END);
        ShortMore(|secs|, |FreeList(tags0)|, |secs1|, |FreeList(tags)|, Cost(n), Cost(n));
        ok, d1, secs1 := ReserveIndirectZones(d1, numSectors, id, secs1, disk0, tags0, secs);
      }
    }

    /** The indirect zones of inode_reserve, for NUM more data sectors, given what was reserved since DISK0. */
    method ReserveIndirectZones(d: InodeDisk, num: nat, ghost id: nat, ghost secs: seq<nat>,
                                ghost disk0: seq<Block>, ghost tags0: seq<Tag>, ghost secs0: seq<nat>)
      returns (ok: bool, d1: InodeDisk, ghost secs1: seq<nat>)
      requires Growing(id, secs) && Zones(disk, d, secs) && |secs| == Max(|secs0|, DIRECT) && num > 0
      requires Reserved(disk0, disk, tags0, tags, id, secs0, secs, 0, END)
      modifies this`disk, this`tags, cache, cache.cache, cache.device, freeMap.bits
      ensures Ok()
      ensures ok <==> num <= PER_BLOCK + PER_BLOCK * PER_BLOCK && Missing(secs, Cost(DIRECT + num)) <= |FreeList(old(tags))|
      ensures d1 == d.(indirect := d1.indirect, doubly := d1.doubly) && (ok ==> |secs1| == Max(|secs|, Cost(DIRECT + num)))
      ensures ok ==> Reserved(disk0, disk, tags0, tags, id, secs0, secs1, 0, END)
      ensures ok ==> Zones(disk, d1, secs1)
      ensures !ok ==> Refused(disk0, disk, tags0, tags, id, secs0, secs1, DIRECT + num)
      decreases 5, 3
    {
      ghost var n0, f0 := |secs|, |FreeList(tags)|;
      FirstZone(num);
      var l := Min(num, PER_BLOCK);
      ok, d1, secs1 := ReserveZoneOf(d, l, 1, DIRECT + num, id, secs, disk0, tags0, secs0);
      ghost var ok1, n1 := ok, |secs1|;
      if ok && num - l > 0 {
        ok, d1, secs1 := ReserveRest(d1, num - l, id, secs1, disk0, tags0, secs0);
      }
      IndirectZones(num, n0, f0, ok1, n1, ok, |secs1|);
    }

    /** The last zone of inode_reserve, for NUM more data sectors, given what was reserved since DISK0. */
    method ReserveRest(d: InodeDisk, num: nat, ghost id: nat, ghost secs: seq<nat>,
                       ghost disk0: seq<Block>, ghost tags0: seq<Tag>, ghost secs0: seq<nat>)
      returns (ok: bool, d1: InodeDisk, ghost secs1: seq<nat>)
      requires Growing(id, secs) && Zones(disk, d, secs) && |secs| == Max(|secs0|, DOUBLY_POS) && num > 0
      requires Reserved(disk0, disk, tags0, tags, id, secs0, secs, 0, END)
      modifies this`disk, this`tags, cache, cache.cache, cache.device, freeMap.bits
      ensures Ok()
      ensures ok <==> num <= PER_BLOCK * PER_BLOCK && Missing(secs, DOUBLY_POS + LevelCost(2, num)) <= |FreeList(old(tags))|
      ensures d1 == d.(doubly := d1.doubly) && (ok ==> |secs1| == Max(|secs|, DOUBLY_POS + LevelCost(2, num)))
      ensures ok ==> Reserved(disk0, disk, tags0, tags, id, secs0, secs1, 0, END)
      ensures ok ==> Zones(disk, d1, secs1)
      ensures !ok ==> Refused(disk0, disk, tags0, tags, id, secs0, secs1, SINGLE_END + num)
      decreases 5, 2
    {
      var l := Min(num, PER_BLOCK * PER_BLOCK);
      CostOfZones(Min(SINGLE_END + num, MAX_SECTORS));
      ok, d1, secs1 := ReserveZoneOf(d, l, 2, SINGLE_END + num, id, secs, disk0, tags0, secs0);
      if ok {
        ok := num - l == 0;
        if !ok {
          MapFileFacts();
          TooLong(disk0, disk, tags0, tags, id, secs0, secs1, SINGLE_END + num);
        }
      }
    }

    /** The sector INODE is open at holds its inode. */
    ghost predicate Opened(inode: Inode, secs: seq<nat>)
      reads this, inode
    {
      inode.sector < |tags| && tags[inode.sector] == Own(inode.sector, -1) && Holds(inode, secs)
    }

    /** inode_write_at once the file is long enough: the bytes of the file are overwritten in
        place, and the free map file stays well formed even when it is the one written. */
    method WriteInside(inode: Inode, buffer: seq<Byte>, offset: nat, ghost secs: seq<nat>) returns (written: nat)
      requires Ready(inode) && Opened(inode, secs) && offset + |buffer| <= inode.data.length
      requires inode == freeMapFile ==> secs == fmSecs
      requires inode != freeMapFile ==> inode.sector != 0
      modifies this`disk, cache, cache.cache, cache.device
      ensures Ready(inode) && Opened(inode, secs) && written == |buffer|
      ensures Wrote(old(disk), disk, secs, offset, buffer) && DataOnly(old(disk), disk, tags, inode.sector)
      ensures |buffer| == 0 ==> disk == old(disk)
    {
      assert OpenMap(true);
      written := WriteChunks(inode, buffer, offset, secs);
      if freeMapFile != null && inode != freeMapFile {
        UntouchedFile(old(disk), disk, tags, tags, 0, freeMapFile.data, fmSecs);
      }
    }

    /** The inode written back to its sector. */
    method WriteInode(inode: Inode)
      requires Ok() && |inode.data.direct| == DIRECT
      requires inode.sector < |tags| && tags[inode.sector] == Own(inode.sector, -1)
      modifies this`disk, cache, cache.cache, cache.device
      ensures Ok() && disk == old(disk)[inode.sector := EncodeInode(inode.data)]
    {
      WriteOutside(inode.sector, EncodeInode(inode.data));
    }

    /** The branch of inode_write_at that extends the file to END bytes. A write of no bytes at
        offset 0 takes it too, with END 0: it cuts the length to 0 and releases nothing. */
    method Extend(inode: Inode, end: Word, ghost secs: seq<nat>) returns (ok: bool, ghost secs1: seq<nat>)
      requires Ok() && Opened(inode, secs) && inode != freeMapFile && inode.sector != 0
      requires inode.data.length < end || end == 0
      modifies this`disk, this`tags, cache, cache.cache, cache.device, freeMap.bits, inode`data
      ensures Ok()
      ensures ok <==> Sectors(end) <= MAX_SECTORS && Missing(secs, Cost(Sectors(end))) <= |FreeList(old(tags))|
      ensures inode.data.length == if ok then end else old(inode.data.length)
      ensures ok && end > 0 ==> Opened(inode, secs1)
      ensures ok && end > 0 ==> Lengthened(old(disk), disk, old(tags), tags, inode.sector, old(inode.data), inode.data, secs, secs1, end)
      ensures ok && end == 0 ==> inode.data == old(inode.data).(length := 0) && secs1 == secs && tags == old(tags)
      ensures ok && end == 0 ==> |inode.data.direct| == DIRECT && inode.sector < |old(disk)|
                                 && disk == old(disk)[inode.sector := EncodeInode(inode.data)]
      ensures !ok ==> Refused(old(disk), disk, old(tags), tags, inode.sector, secs, secs1, Sectors(end))
      decreases 7, 0
    {
      ghost var disk0, tags0, id, d0 := disk, tags, inode.sector, inode.data;
      ToZones(disk, d0, secs);
      var d1;
      ok, d1, secs1 := Reserve(inode.data, end, id, secs);
      inode.data := d1;
      if ok {
        AfterReserve(disk0, disk, tags0, tags, id, d0, d1, secs, secs1, end);
        inode.data := inode.data.(length := end);
        ghost var disk1 := disk;
        WriteInode(inode);
        if end > 0 {
          ToLengthened(disk0, disk1, disk, tags0, tags, id, d0, inode.data, secs, secs1, end);
        }
      }
    }

    /** inode_write_at of BUFFER, which is not empty, past the end of the file. */
    method WriteBeyond(inode: Inode, buffer: seq<Byte>, offset: nat, ghost secs: seq<nat>) returns (written: nat, ghost secs1: seq<nat>)
      requires Ok() && Opened(inode, secs) && offset + |buffer| < 0x8000_0000 && 0 < |buffer|
      requires inode != freeMapFile && inode.sector != 0 && inode.data.length < offset + |buffer|
      modifies this`disk, this`tags, cache, cache.cache, cache.device, freeMap.bits, inode`data
      ensures Ok()
      ensures written == if Fits(|FreeList(old(tags))|, secs, old(inode.data.length), offset + |buffer|) then |buffer| else 0
      ensures 0 < written ==> Written(old(disk), disk, old(tags), tags, inode.sector, old(inode.data), inode.data, secs, secs1, offset, buffer)
      ensures written == 0 ==> inode.data.length == old(inode.data.length)
      ensures written == 0 ==> Refused(old(disk), disk, old(tags), tags, inode.sector, secs, secs1, Sectors(offset + |buffer|))
      decreases 7, 1
    {
      ghost var disk0, tags0, d0 := disk, tags, inode.data;
      ghost var fits := Fits(|FreeList(tags)|, secs, inode.data.length, offset + |buffer|);
      var ok;
      ok, secs1 := Extend(inode, offset + |buffer|, secs);
      assert ok <==> fits;
      if !ok {
        return 0, secs1;
      }
      ghost var disk1 := disk;
      written := WriteInside(inode, buffer, offset, secs1);
      WrittenBeyond(disk0, disk1, disk, tags0, tags, inode.sector, d0, inode.data, secs, secs1, offset, buffer);
    }

    /** inode_write_at of BUFFER before the end of the file. */
    method WriteBefore(inode: Inode, buffer: seq<Byte>, offset: nat, ghost secs: seq<nat>) returns (written: nat)
      requires Ready(inode) && Opened(inode, secs) && offset + |buffer| <= inode.data.length
      requires inode == freeMapFile ==> secs == fmSecs
      requires inode != freeMapFile ==> inode.sector != 0
      modifies this`disk, cache, cache.cache, cache.device
      ensures Ready(inode) && written == |buffer| && (|buffer| == 0 ==> disk == old(disk))
      ensures Written(old(disk), disk, tags, tags, inode.sector, inode.data, inode.data, secs, secs, offset, buffer)
    {
      written := WriteInside(inode, buffer, offset, secs);
      WrittenInside(old(disk), disk, tags, inode.sector, inode.data, secs, offset, buffer);
    }

    /** inode_write_at. A write that fits splices the buffer into the file's bytes, extending it
        and filling any gap with zeros. One that does not fit writes nothing, but keeps what it took. */
    method WriteAt(inode: Inode, buffer: seq<Byte>, offset: nat, ghost secs: seq<nat>) returns (written: nat, ghost secs1: seq<nat>)
      requires Ready(inode) && Opened(inode, secs) && offset + |buffer| < 0x8000_0000
      requires inode == freeMapFile ==> secs == fmSecs && 0 < |buffer| && offset + |buffer| <= inode.data.length
      requires inode != freeMapFile ==> inode.sector != 0
      modifies this`disk, this`tags, cache, cache.cache, cache.device, freeMap.bits
      modifies if inode == freeMapFile then {} else {inode}
      ensures Ready(inode) && inode.denyWriteCnt == old(inode.denyWriteCnt) && inode.removed == old(inode.removed)
      ensures inode.denyWriteCnt > 0 ==> written == 0 && tags == old(tags) && disk == old(disk) && inode.data == old(inode.data)
      ensures inode.denyWriteCnt == 0 && 0 < |buffer| ==>
                written == if Fits(|FreeList(old(tags))|, secs, old(inode.data.length), offset + |buffer|) then |buffer| else 0
      ensures 0 < written ==> Written(old(disk), disk, old(tags), tags, inode.sector, old(inode.data), inode.data, secs, secs1, offset, buffer)
      ensures inode.denyWriteCnt == 0 && 0 < |buffer| && written == 0 ==>
                && inode.data.length == old(inode.data.length)
                && Refused(old(disk), disk, old(tags), tags, inode.sector, secs, secs1, Sectors(offset + |buffer|))
      ensures inode.denyWriteCnt == 0 && |buffer| == 0 ==>
                && written == 0
                && EmptyWrite(old(disk), disk, old(tags), tags, inode.sector, old(inode.data), inode.data, secs, secs1, offset)
      decreases if inode == freeMapFile then 1 else 8, 0
    {
      written, secs1 := 0, secs;
      if inode.denyWriteCnt > 0 {
        return;
      }
      var last := LastSector(inode, offset + |buffer|, secs);
      if last != NO_SECTOR {
        written := WriteBefore(inode, buffer, offset, secs);
      } else if |buffer| > 0 {
        written, secs1 := WriteBeyond(inode, buffer, offset, secs);
      } else {
        var ok;
        ok, secs1 := Extend(inode, offset, secs);
      }
    }

    /** byte_to_sector for the last byte of a write that ends at END. */
    method LastSector(inode: Inode, end: nat, ghost secs: seq<nat>) returns (r: nat)
      requires Ready(inode) && Opened(inode, secs)
      modifies cache, cache.cache, cache.device
      ensures Ready(inode) && (r == NO_SECTOR <==> end == 0 || end > inode.data.length)
    {
      assert OpenMap(true);
      r := ByteToSector(inode, end - 1, secs);
    }
  }

  lemma WroteAll(disk0: seq<Block>, disk1: seq<Block>, secs: seq<nat>, length: nat, buffer: seq<Byte>)
    requires Wrote(disk0, disk1, secs, 0, buffer) && |buffer| == length && |secs| == Cost(Sectors(length))
    ensures Bytes(disk1, secs, length) == buffer
  {
    forall x | 0 <= x < length
      ensures ByteAt(disk1, secs, x) == buffer[x]
    {
      InFile(x / 512, Sectors(length));
    }
  }

  /** A chunk written into a file's data keeps the file well formed. */
  lemma ChunkWritten(disk0: seq<Block>, disk1: seq<Block>, disk2: seq<Block>, tags: seq<Tag>, id: nat, d: InodeDisk,
                     secs: seq<nat>, offset: nat, buffer: seq<Byte>, done: nat, chunk: nat)
    requires IsFile(disk1, tags, id, d, secs) && |tags| <= |disk1|
    requires done + chunk <= |buffer| && offset + |buffer| <= d.length
    requires (offset + done) % 512 + chunk <= 512 && Pos((offset + done) / 512) < |secs|
    requires Wrote(disk0, disk1, secs, offset, buffer[..done]) && DataOnly(disk0, disk1, tags, id)
    requires var at := offset + done;
             var s := secs[Pos(at / 512)];
             disk2 == disk1[s := Patched(disk1[s], at % 512, buffer[done..done + chunk])]
    ensures IsFile(disk2, tags, id, d, secs)
    ensures Wrote(disk0, disk2, secs, offset, buffer[..done + chunk]) && DataOnly(disk0, disk2, tags, id)
  {
    var at := offset + done;
    PosIsData(at / 512);
    WroteMore(disk0, disk1, tags, id, secs, offset, buffer, done, chunk);
    RepFrame(disk1, disk2, d, secs);
    forall x | d.length <= x < 512 * Sectors(d.length)
      ensures ByteAt(disk2, secs, x) == 0
    {
      PatchSector(disk1, tags, id, secs, at / 512, at % 512, buffer[done..done + chunk], x);
    }
  }

  /** What a read of SIZE bytes at OFFSET returns. */
  function Slice(data: seq<Byte>, offset: nat, size: nat): (r: seq<Byte>)
    ensures |r| <= size
  {
    if offset >= |data| then [] else data[offset..if offset + size < |data| then offset + size else |data|]
  }

  lemma SliceEnd(data: seq<Byte>, offset: nat, n: nat, size: nat)
    requires n <= size && offset + n >= |data|
    ensures Slice(data, offset, n) == Slice(data, offset, size)
  {
  }

  lemma SliceMore(data: seq<Byte>, offset: nat, buffer: seq<Byte>, piece: seq<Byte>)
    requires 0 < |piece| && buffer == Slice(data, offset, |buffer|) && offset + |buffer| + |piece| <= |data|
    requires piece == data[offset + |buffer|..offset + |buffer| + |piece|]
    ensures buffer + piece == Slice(data, offset, |buffer + piece|)
  {
  }
}
