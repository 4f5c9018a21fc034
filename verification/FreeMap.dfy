/** The free map's own file (free-map.c): created by formatting, and read back when the volume is opened. */
module FreeMaps {
  import opened Blocks
  import opened Layout
  import opened Content
  import opened Reserving
  import opened Volumes
  import Bitmaps
  import Inodes

  /** What a successful inode_create or extension promises, opened. */
  lemma LengthenedFacts(disk0: seq<Block>, disk1: seq<Block>, tags0: seq<Tag>, tags1: seq<Tag>, id: nat,
                        d0: InodeDisk, d1: InodeDisk, secs0: seq<nat>, secs1: seq<nat>, end: nat)
    requires Lengthened(disk0, disk1, tags0, tags1, id, d0, d1, secs0, secs1, end)
    ensures IsFile(disk1, tags1, id, d1, secs1) && SameKind(d0, d1) && d1.length == end
    ensures Bytes(disk1, secs1, end) == Extended(Bytes(disk0, secs0, d0.length), end)
    ensures Grew(tags0, tags1, id, secs0, secs1) && FileOnly(disk0, disk1, tags1, id)
    ensures id < |disk1| && disk1[id] == EncodeInode(d1)
  {
    assert Open(true);
  }

  /** free_map_create: the map's file is created and the map, which already counts the file's own
      sectors, is written to it. It fails, and the program says so, without enough free sectors. */
  method FreeMapCreate(v: Volume) returns (ok: bool)
    requires v.Ok() && v.freeMapFile == null
    modifies v`disk, v`tags, v`freeMapFile, v`fmSecs, v.cache, v.cache.cache, v.cache.device, v.freeMap.bits
    ensures v.Ok()
    ensures var n := Sectors(Bitmaps.ByteCnt(|old(v.tags)|));
            ok <==> n <= MAX_SECTORS && Cost(n) <= |FreeList(old(v.tags))|
    ensures |v.tags| == |old(v.tags)| && (!ok ==> v.freeMapFile == null)
    ensures ok ==> v.freeMapFile != null && fresh(v.freeMapFile) && MapFileMade(v, v.freeMapFile, old(v.disk), old(v.tags))
  {
    ghost var d, secs;
    var size := v.MapFileSize();
    v.MapFileFacts();
    ok, d, secs := Inodes.Create(v, 0, size, false);
    if ok {
      LengthenedFacts(old(v.disk), v.disk, old(v.tags), v.tags, 0, EmptyInode(0, false), d, [], secs, size);
      OpenMapFile(v, d, secs, old(v.disk), old(v.tags));
    } else {
      RefusedFacts(old(v.disk), v.disk, old(v.tags), v.tags, 0, [], secs, Wanted(size));
    }
  }

  /** The rest of free_map_create, once the file's inode D is on the disk. */
  method OpenMapFile(v: Volume, ghost d: InodeDisk, ghost secs: seq<nat>, ghost disk0: seq<Block>, ghost tags0: seq<Tag>)
    requires v.Ok() && v.freeMapFile == null && IsFile(v.disk, v.tags, 0, d, secs) && d.length == Bitmaps.ByteCnt(|v.tags|)
    requires Grew(tags0, v.tags, 0, [], secs) && FileOnly(disk0, v.disk, v.tags, 0)
    requires 0 < |v.disk| && v.disk[0] == EncodeInode(d)
    modifies v`disk, v`tags, v`freeMapFile, v`fmSecs, v.cache, v.cache.cache, v.cache.device, v.freeMap.bits
    ensures v.Ok() && v.freeMapFile != null && fresh(v.freeMapFile) && MapFileMade(v, v.freeMapFile, disk0, tags0)
  {
    InodeRoundTrip(d);
    var inode := Inodes.OpenInode(v, 0);
    ghost var disk1 := v.disk;
    Attach(v, inode, secs);
    v.WriteMap();
    v.MapFileFacts();
    DataIsFileOnly(disk1, v.disk, v.tags, 0);
    FileOnlyMore(disk0, disk1, v.disk, v.tags, 0);
  }

  /** free_map_file = file_open(inode) */
  method Attach(v: Volume, inode: Inode, ghost secs: seq<nat>)
    requires v.Ok() && inode.sector == 0 && !inode.removed && inode.denyWriteCnt == 0
    requires IsFile(v.disk, v.tags, 0, inode.data, secs) && inode.data.length == Bitmaps.ByteCnt(|v.tags|)
    modifies v`freeMapFile, v`fmSecs
    ensures v.Stale() && v.freeMapFile == inode && v.fmSecs == secs
  {
    assert OpenMap(true);
    v.freeMapFile, v.fmSecs := inode, secs;
  }

  /** The free map's file has just been made on DISK0 and TAGS0. */
  ghost predicate MapFileMade(v: Volume, inode: Inode, disk0: seq<Block>, tags0: seq<Tag>)
    reads v, inode
  {
    && v.Holds(inode, v.fmSecs) && inode.sector == 0
    && Grew(tags0, v.tags, 0, [], v.fmSecs) && FileOnly(disk0, v.disk, v.tags, 0)
    && 0 < |v.disk| && v.disk[0] == EncodeInode(inode.data)
  }

  /** The disk holds the file of a free map with the owners TAGS: its inode D in sector 0, and in its
      sectors SECS the bits of the map. */
  ghost predicate MapStored(disk: seq<Block>, tags: seq<Tag>, d: InodeDisk, secs: seq<nat>) {
    MapStoredBody(disk, tags, d, secs) == true
  }

  ghost predicate MapStoredBody(disk: seq<Block>, tags: seq<Tag>, d: InodeDisk, secs: seq<nat>) {
    forall b {:trigger Open(b)} :: Open(b) ==>
      && 2 <= |tags| && |tags| + 1 == |disk| && tags[0] == Own(0, -1)
      && |d.direct| == DIRECT && disk[0] == EncodeInode(d)
      && IsFile(disk, tags, 0, d, secs) && d.length == Bitmaps.ByteCnt(|tags|)
      && Bytes(disk, secs, d.length) == Bitmaps.Image(UsedBits(tags))
  }

  lemma MapIsStored(v: Volume)
    requires v.Ok() && v.freeMapFile != null && |v.freeMapFile.data.direct| == DIRECT
    requires Sector0(v.disk) == EncodeInode(v.freeMapFile.data)
    ensures MapStored(v.disk, v.tags, v.freeMapFile.data, v.fmSecs)
  {
    v.MapFileFacts();
  }

  /** The inode and the sectors of the file that free_map_open reads: a zeroed inode is that of an
      empty file. */
  lemma MapReads(disk: seq<Block>, tags: seq<Tag>, d: InodeDisk, secs: seq<nat>)
    requires 0 < |disk| && (MapStored(disk, tags, d, secs) || disk[0] == Zeros())
    ensures var stored := MapStored(disk, tags, d, secs);
            var secs1 := if stored then secs else [];
            var d1 := DecodeInode(disk[0]);
            && Rep(disk, d1, secs1) && Sectors(d1.length) <= MAX_SECTORS && |secs1| == Cost(Sectors(d1.length))
            && (forall q :: 0 <= q < |secs1| ==> secs1[q] < |disk|)
            && (if stored then d1 == d && Bytes(disk, secs1, d1.length) == Bitmaps.Image(UsedBits(tags)) else d1.length == 0)
  {
    assert Open(true);
    if MapStored(disk, tags, d, secs) {
      InodeRoundTrip(d);
    } else {
      assert forall i :: 0 <= i < PER_BLOCK ==> Words(Zeros())[i] == 0;
    }
  }

  /** The free map's inode was zeroed: its file is empty, whatever the map in memory says. */
  ghost predicate Zeroed(v: Volume)
    reads v, v.freeMapFile, v.cache, v.cache.cache, v.cache.device, v.freeMap, v.freeMap.bits
  {
    && v.Base() && Sector0(v.disk) == Zeros() && v.fmSecs == []
    && v.freeMapFile != null && v.freeMapFile.sector == 0 && !v.freeMapFile.removed && v.freeMapFile.denyWriteCnt == 0
    && v.freeMapFile.data == DecodeInode(Zeros())
  }

  /** free_map_open. It replaces the map in memory by the one that the disk holds. It fails exactly when
      the map's inode was zeroed; then the map in memory stays, with the empty file attached. */
  method FreeMapOpen(v: Volume, ghost tags: seq<Tag>, ghost d: InodeDisk, ghost secs: seq<nat>) returns (ok: bool)
    requires v.Ok() && |v.tags| == |tags|
    requires MapStored(v.disk, tags, d, secs) || Sector0(v.disk) == Zeros()
    modifies v`tags, v`freeMapFile, v`fmSecs, v.cache, v.cache.cache, v.cache.device, v.freeMap.bits
    ensures ok <==> MapStored(v.disk, tags, d, secs)
    ensures v.freeMapFile != null && fresh(v.freeMapFile)
    ensures ok ==> v.Ok() && v.tags == tags && v.fmSecs == secs && v.freeMapFile.data == d
    ensures !ok ==> Zeroed(v) && v.tags == old(v.tags)
  {
    v.MapFileFacts();
    ghost var secs1 := if MapStored(v.disk, tags, d, secs) then secs else [];
    MapReads(v.disk, tags, d, secs);
    var inode := Inodes.OpenInode(v, 0);
    var bytes := ReadMapFile(v, inode, secs1);
    ok := |bytes| == Bitmaps.ByteCnt(v.freeMap.bitCnt);
    if ok {
      LoadMap(v, bytes, inode, tags, secs);
    } else {
      AttachZeroed(v, inode);
    }
  }

  /** The empty file of a zeroed inode becomes the free map's. */
  method AttachZeroed(v: Volume, inode: Inode)
    requires v.Ok() && Sector0(v.disk) == Zeros()
    requires inode.sector == 0 && inode.data == DecodeInode(Zeros()) && !inode.removed && inode.denyWriteCnt == 0
    modifies v`freeMapFile, v`fmSecs
    ensures Zeroed(v) && v.freeMapFile == inode
  {
    assert OpenMap(true);
    v.freeMapFile, v.fmSecs := inode, [];
  }

  /** The read in bitmap_read. */
  method ReadMapFile(v: Volume, inode: Inode, ghost secs: seq<nat>) returns (bytes: seq<Byte>)
    requires v.Ok() && v.Readable(inode, secs)
    modifies v.cache, v.cache.cache, v.cache.device
    ensures v.Ok() && v.freeMap.bitCnt == |v.tags|
    ensures bytes == Slice(Bytes(v.disk, secs, inode.data.length), 0, Bitmaps.ByteCnt(|v.tags|))
  {
    v.BitsAreTags();
    assert OpenMap(true);
    bytes := v.ReadAt(inode, Bitmaps.ByteCnt(v.freeMap.bitCnt), 0, secs);
  }

  /** The rest of bitmap_read, with what the map then is. */
  method LoadMap(v: Volume, bytes: seq<Byte>, inode: Inode, ghost tags: seq<Tag>, ghost secs: seq<nat>)
    requires v.Ok() && MapStored(v.disk, tags, inode.data, secs) && |v.tags| == |tags|
    requires inode.sector == 0 && !inode.removed && inode.denyWriteCnt == 0 && bytes == Bitmaps.Image(UsedBits(tags))
    modifies v`tags, v`freeMapFile, v`fmSecs, v.freeMap.bits
    ensures v.Ok() && v.tags == tags && v.fmSecs == secs && v.freeMapFile == inode
  {
    v.BitsAreTags();
    assert Open(true);
    assert OpenMap(true);
    assert OpenStore(true);
    v.freeMap.FromBytes(bytes);
    Bitmaps.ImageRoundTrip(UsedBits(tags));
    v.tags, v.freeMapFile, v.fmSecs := tags, inode, secs;
  }

  // ----- A zeroed map -----

  /** The zeroed inode is that of an empty file. */
  lemma ZeroedFacts(v: Volume)
    requires Zeroed(v)
    ensures v.Readable(v.freeMapFile, []) && v.freeMapFile.data.length == 0
    ensures |v.freeMapFile.data.direct| == DIRECT && v.freeMapFile.data.direct[0] == 0
    ensures v.freeMap.bitCnt == |v.tags| >= 2
  {
    assert OpenStore(true);
    MapReads(v.disk, [], EmptyInode(0, false), []);
  }

  /** free_map_allocate of one sector. To write the map, its empty file has to grow, for which a sector
      has to be allocated, and so on until none is left: each write fails in turn and its sector is given
      back. Nothing is allocated, whatever is free. */
  method AllocateZeroed(v: Volume) returns (ok: bool, s: nat)
    requires Zeroed(v)
    modifies v`tags, v.cache, v.cache.cache, v.cache.device, v.freeMap.bits
    ensures Zeroed(v) && !ok && v.tags == old(v.tags)
    decreases |FreeList(v.tags)|, 0
  {
    ok, s := v.TakeFree(Lost);
    if ok {
      FirstFree(old(v.tags));
      TakeFirstFree(old(v.tags), s, Lost);
      var written := WriteZeroedMap(v);
      if !written {
        v.GiveBack(s);
        assert v.tags == old(v.tags);
        ok := false;
      } else {
        assert false;
      }
    }
  }

  /** bitmap_write to the map's empty file. */
  method WriteZeroedMap(v: Volume) returns (written: bool)
    requires Zeroed(v)
    modifies v`tags, v.cache, v.cache.cache, v.cache.device, v.freeMap.bits
    ensures Zeroed(v) && !written && v.tags == old(v.tags)
    decreases |FreeList(v.tags)|, 2
  {
    ZeroedFacts(v);
    var size := Bitmaps.ByteCnt(v.freeMap.bitCnt);
    var last := v.ByteToSector(v.freeMapFile, size - 1, []);
    if last == NO_SECTOR {
      written := ReserveZeroed(v, size);
    } else {
      assert false;
    }
  }

  /** inode_reserve for the map's empty file: its first direct sector is missing. */
  method ReserveZeroed(v: Volume, size: nat) returns (ok: bool)
    requires Zeroed(v) && size > 0
    modifies v`tags, v.cache, v.cache.cache, v.cache.device, v.freeMap.bits
    ensures Zeroed(v) && !ok && v.tags == old(v.tags)
    decreases |FreeList(v.tags)|, 1
  {
    ZeroedFacts(v);
    if v.freeMapFile.data.direct[0] == 0 {
      var s;
      ok, s := AllocateZeroed(v);
    } else {
      assert false;
    }
  }
}
