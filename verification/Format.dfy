/** Formatting (filesys.c, do_format; directory.c, dir_create): from a device with any contents to an
    empty file system. */
module Formatting {
  import opened Blocks
  import opened Layout
  import opened Reserving
  import opened Volumes
  import opened Ownership
  import opened Directories
  import opened Catalogs
  import opened Growth
  import opened FileSystems
  import opened Paths
  import FreeMaps
  import Inodes
  import Bitmaps

  const MAX_FILES_IN_DIRECTORY: nat := 1000

  /** The root directory of a new file system: its parent's entry, itself, and free slots. */
  function NewSlots(n: nat): (r: seq<Entry>)
    requires n > 0
    ensures |r| == n
  {
    seq(n, k => if k == 0 then Entry(1, [], true) else Entry(0, [], false))
  }

  lemma {:induction false} NoneInUse(slots: seq<Entry>, k: nat)
    requires k <= |slots| && forall j :: k <= j < |slots| ==> !slots[j].inUse
    ensures DictFrom(slots, k) == map[] && ListingFrom(slots, k) == []
    decreases |slots| - k
  {
    if k < |slots| {
      NoneInUse(slots, k + 1);
    }
  }

  /** The zeroed file of a new directory holds unused entries. */
  lemma BlankImage(n: nat)
    requires n > 0
    ensures DirImage(seq(n, _ => Entry(0, [], false))) == seq(36 * n, _ => 0)
    ensures Put(seq(n, _ => Entry(0, [], false)), 0, Entry(1, [], true)) == NewSlots(n)
  {
  }

  /** The free map's file on a volume that holds nothing else, its root inode still to come. */
  lemma MapFileWorld(v: Volume, inode: Inode, disk0: seq<Block>, tags0: seq<Tag>)
    requires FreeMaps.MapFileMade(v, inode, disk0, tags0) && tags0 == FormattedTags(|tags0|) && 3 <= |tags0| < |v.disk|
    requires |inode.data.direct| == DIRECT
    ensures World(v.disk, v.tags[1 := Free], map[0 := FileState(inode.data, v.fmSecs)])
    ensures v.tags[1] == Own(1, -1) && FreeList(v.tags[1 := Free]) != [] && FreeList(v.tags[1 := Free])[0] == 1
  {
    var tags := v.tags[1 := Free];
    UntouchedFile(v.disk, v.disk, v.tags, tags, 0, inode.data, v.fmSecs);
    FreeSkip(tags, 0, 1);
  }

  /** Only the free map's sectors and the directory's precede the free ones. */
  lemma FormattedPrefix(n: nat)
    requires n >= 2
    ensures PrefixUsed(FormattedTags(n), 2) && |FreeList(FormattedTags(n))| == n - 2
  {
    PrefixFreeList(FormattedTags(n), 2);
  }

  /** The root directory's file on such a volume: first zeroed, then with its parent's entry. */
  lemma RootWorld(disk1: seq<Block>, disk2: seq<Block>, disk3: seq<Block>, tags1: seq<Tag>, tags2: seq<Tag>, tags3: seq<Tag>,
                  f0: FileState, d: InodeDisk, secs: seq<nat>, d3: InodeDisk, secs3: seq<nat>, n: nat)
    requires 1 < |tags1| < |disk1| && tags1[1] == Own(1, -1) && World(disk1, tags1[1 := Free], map[0 := f0]) && n > 0
    requires Lengthened(disk1, disk2, tags1, tags2, 1, EmptyInode(0, true), d, [], secs, 36 * n)
    requires Written(disk2, disk3, tags2, tags3, 1, d, d3, secs, secs3, 0, EncodeEntry(Entry(1, [], true)))
    requires IsFile(disk2, tags2, 0, f0.d, f0.secs) && IsFile(disk3, tags3, 0, f0.d, f0.secs)
    ensures World(disk3, tags3, map[0 := f0, 1 := FileState(d3, secs3)])
    ensures FileBytes(disk3, FileState(d3, secs3)) == DirImage(NewSlots(n))
    ensures Grew(tags1, tags3, 1, [], secs3) && |secs3| == Cost(Sectors(36 * n)) && Sector0(disk3) == Sector0(disk1)
  {
    var tags0 := tags1[1 := Free];
    var files1 := map[0 := f0, 1 := FileState(d, secs)];
    assert tags1 == tags0[1 := Own(1, -1)];
    WorldCreate(disk1, disk1, disk2, tags0, tags1, tags2, map[0 := f0], 1, EmptyInode(0, true), d, secs, 36 * n);
    assert map[0 := f0][1 := FileState(d, secs)] == files1;
    FreeMaps.LengthenedFacts(disk1, disk2, tags1, tags2, 1, EmptyInode(0, true), d, [], secs, 36 * n);
    var blank := seq(n, _ => Entry(0, [], false));
    BlankImage(n);
    assert FileBytes(disk2, files1[1]) == DirImage(blank);
    EntryWritten(disk2, disk3, tags2, tags3, files1, d3, secs3, blank, 0, Entry(1, [], true));
    assert files1[1 := FileState(d3, secs3)] == map[0 := f0, 1 := FileState(d3, secs3)];
  }

  /** The entry for the parent directory, which for the root is itself. */
  method WriteParent(v: Volume, root: Inode, ghost secs: seq<nat>) returns (ghost secs1: seq<nat>)
    requires v.Ok() && v.Opened(root, secs) && root != v.freeMapFile && root.sector == 1 && root.data.length >= 36
    requires !root.removed && root.denyWriteCnt == 0
    modifies v`disk, v`tags, v.cache, v.cache.cache, v.cache.device, v.freeMap.bits, root
    ensures v.Ok() && !root.removed && root.denyWriteCnt == 0
    ensures Written(old(v.disk), v.disk, old(v.tags), v.tags, 1, old(root.data), root.data, secs, secs1, 0, EncodeEntry(Entry(1, [], true)))
  {
    var written;
    written, secs1 := v.WriteAt(root, EncodeEntry(Entry(1, [], true)), 0, secs);
  }

  /** inode_create and inode_open of the root directory. */
  method RootInode(v: Volume, n: nat) returns (ok: bool, root: Inode?, ghost secs: seq<nat>)
    requires v.Ok() && v.freeMapFile != null && 1 < |v.tags| && v.tags[1] == Own(1, -1) && 0 < n <= MAX_FILES_IN_DIRECTORY
    modifies v`disk, v`tags, v.cache, v.cache.cache, v.cache.device, v.freeMap.bits
    ensures v.Ok() && (ok <==> Cost(Sectors(36 * n)) <= |FreeList(old(v.tags))|)
    ensures ok ==> root != null && fresh(root) && root.sector == 1 && !root.removed && root.denyWriteCnt == 0
    ensures ok ==> v.Opened(root, secs) && root.data.length == 36 * n
    ensures ok ==> Lengthened(old(v.disk), v.disk, old(v.tags), v.tags, 1, EmptyInode(0, true), root.data, [], secs, 36 * n)
  {
    root := null;
    ghost var disk1, tags1 := v.disk, v.tags;
    ghost var d;
    ok, d, secs := Inodes.Create(v, 1, 36 * n, true);
    if ok {
      root := OpenMade(v, disk1, tags1, d, secs, 36 * n);
    }
  }

  /** inode_open of the root directory just made, with inode D. */
  method OpenMade(v: Volume, ghost disk1: seq<Block>, ghost tags1: seq<Tag>, ghost d: InodeDisk, ghost secs: seq<nat>, ghost length: nat)
    returns (root: Inode)
    requires v.Ok() && Lengthened(disk1, v.disk, tags1, v.tags, 1, EmptyInode(0, true), d, [], secs, length)
    requires 1 < |tags1| && tags1[1] == Own(1, -1)
    modifies v.cache, v.cache.cache, v.cache.device
    ensures v.Ok() && fresh(root) && root.sector == 1 && !root.removed && root.denyWriteCnt == 0
    ensures v.Opened(root, secs) && root.data == d && d.length == length
  {
    FreeMaps.LengthenedFacts(disk1, v.disk, tags1, v.tags, 1, EmptyInode(0, true), d, [], secs, length);
    InodeRoundTrip(d);
    root := Inodes.OpenInode(v, 1);
  }

  /** dir_create of the root directory, whose sector is marked in use. It fails, and the program says so, without room. */
  method DirCreate(v: Volume, n: nat) returns (ok: bool, root: Inode?, ghost secs: seq<nat>)
    requires v.Ok() && v.freeMapFile != null && 1 < |v.tags| && v.tags[1] == Own(1, -1) && 0 < n <= MAX_FILES_IN_DIRECTORY
    requires World(v.disk, v.tags[1 := Free], map[0 := FileState(v.freeMapFile.data, v.fmSecs)])
    modifies v`disk, v`tags, v.cache, v.cache.cache, v.cache.device, v.freeMap.bits
    ensures v.Ok() && (ok <==> Cost(Sectors(36 * n)) <= |FreeList(old(v.tags))|)
    ensures ok ==> root != null && fresh(root) && root.sector == 1 && !root.removed && root.denyWriteCnt == 0
    ensures ok ==> World(v.disk, v.tags, map[0 := FileState(v.freeMapFile.data, v.fmSecs), 1 := FileState(root.data, secs)])
    ensures ok ==> FileBytes(v.disk, FileState(root.data, secs)) == DirImage(NewSlots(n))
    ensures ok ==> Grew(old(v.tags), v.tags, 1, [], secs) && |secs| == Cost(Sectors(36 * n))
    ensures ok ==> Sector0(v.disk) == Sector0(old(v.disk))
  {
    ghost var disk1, tags1, f0 := v.disk, v.tags, FileState(v.freeMapFile.data, v.fmSecs);
    ok, root, secs := RootInode(v, n);
    if ok {
      ghost var disk2, tags2, d2, secs2 := v.disk, v.tags, root.data, secs;
      v.MapFileFacts();
      secs := WriteParent(v, root, secs2);
      v.MapFileFacts();
      RootWorld(disk1, disk2, v.disk, tags1, tags2, v.tags, f0, d2, secs2, root.data, secs, n);
    }
  }

  /** filesys_init with formatting, over a device of any contents: it succeeds exactly when the
      device holds the free map's file and the root directory; the file system is then empty, its
      used sectors are a prefix of the device, and none of them is lost. */
  method Format(device: array<Block>, cacheSlots: nat) returns (ok: bool, fs: FileSystem?)
    requires 3 <= device.Length < NO_SECTOR && cacheSlots > 0
    modifies device
    ensures ok <==>
              SystemSize(device.Length - 1) <= device.Length - 1 && Sectors(Bitmaps.ByteCnt(device.Length - 1)) <= MAX_SECTORS
    ensures ok ==> fs != null && fresh(fs) && fresh(fs.vol) && fresh(fs.root)
    ensures ok ==> fresh(fs.vol.cache) && fresh(fs.vol.cache.cache) && fresh(fs.vol.freeMap) && fresh(fs.vol.freeMap.bits)
    ensures ok ==> fs.vol.cache.device == device
    ensures ok ==> fs.Valid() && fs.View() == map[] && fs.slots == NewSlots(MAX_FILES_IN_DIRECTORY) && fs.Mountable()
    ensures ok ==> |fs.vol.tags| == device.Length - 1 && PrefixUsed(fs.vol.tags, SystemSize(device.Length - 1))
    ensures ok ==> SystemPrefix(fs.vol.tags, SystemSize(device.Length - 1)) && NoneLost(fs.vol.tags)
  {
    fs := null;
    var v;
    ok, v := FormatMap(device, cacheSlots);
    ghost var made, n, free := ok, device.Length - 1, |FreeList(v.tags)|;
    if ok {
      PrefixFreeList(v.tags, 2 + |v.fmSecs|);
      ok, fs := FormatRoot(v, 2 + |v.fmSecs|);
    }
    FormatNeeds(n, free, made, ok);
  }

  /** What formatting needs: room for the map's file, and then for the directory. */
  lemma FormatNeeds(n: nat, free: nat, made: bool, ok: bool)
    requires made <==> Sectors(Bitmaps.ByteCnt(n)) <= MAX_SECTORS && 2 + Cost(Sectors(Bitmaps.ByteCnt(n))) <= n
    requires made ==> free == n - (2 + Cost(Sectors(Bitmaps.ByteCnt(n))))
    requires ok <==> made && Cost(Sectors(36 * MAX_FILES_IN_DIRECTORY)) <= free
    ensures ok <==> SystemSize(n) <= n && Sectors(Bitmaps.ByteCnt(n)) <= MAX_SECTORS
    ensures SystemSize(n) == 2 + Cost(Sectors(Bitmaps.ByteCnt(n))) + Cost(Sectors(36 * MAX_FILES_IN_DIRECTORY))
  {
  }

  /** The rest of it, while the first m sectors are in use: dir_create, free_map_close and free_map_open. */
  method FormatRoot(v: Volume, ghost m: nat) returns (ok: bool, fs: FileSystem?)
    requires v.Ok() && v.freeMapFile != null && 1 < |v.tags| && v.tags[1] == Own(1, -1)
    requires World(v.disk, v.tags[1 := Free], map[0 := FileState(v.freeMapFile.data, v.fmSecs)])
    requires |v.freeMapFile.data.direct| == DIRECT && Sector0(v.disk) == EncodeInode(v.freeMapFile.data)
    requires PrefixUsed(v.tags, m) && NoneLost(v.tags)
    modifies v`disk, v`tags, v`freeMapFile, v`fmSecs, v.cache, v.cache.cache, v.cache.device, v.freeMap.bits
    ensures ok <==> Cost(Sectors(36 * MAX_FILES_IN_DIRECTORY)) <= |FreeList(old(v.tags))|
    ensures ok ==> fs != null && fresh(fs) && fs.vol == v && fresh(fs.root)
    ensures ok ==> fs.Valid() && fs.View() == map[] && fs.slots == NewSlots(MAX_FILES_IN_DIRECTORY) && fs.Mountable()
    ensures ok ==> |v.tags| == |old(v.tags)| && NoneLost(v.tags)
    ensures ok ==> var used := m + Cost(Sectors(36 * MAX_FILES_IN_DIRECTORY));
                   PrefixUsed(v.tags, used) && SystemPrefix(v.tags, used)
  {
    fs := null;
    ghost var tags1 := v.tags;
    var root;
    ghost var secs;
    ok, root, secs := DirCreate(v, MAX_FILES_IN_DIRECTORY);
    if ok {
      PrefixGrows(tags1, v.tags, 1, [], secs, m);
      GrowthLosesNothing(tags1, v.tags, 1, [], secs);
      fs := Mount(v, root, secs, m + |secs|);
    }
  }

  /** The part of Format that comes before the root directory: free_map_init and free_map_create. */
  method FormatMap(device: array<Block>, cacheSlots: nat) returns (ok: bool, v: Volume)
    requires 3 <= device.Length < NO_SECTOR && cacheSlots > 0
    modifies device
    ensures v.Ok() && fresh(v) && fresh(v.cache) && fresh(v.cache.cache) && v.cache.device == device
    ensures fresh(v.freeMap) && fresh(v.freeMap.bits) && |v.tags| == device.Length - 1
    ensures var n := Sectors(Bitmaps.ByteCnt(device.Length - 1));
            ok <==> n <= MAX_SECTORS && 2 + Cost(n) <= device.Length - 1
    ensures ok ==> v.freeMapFile != null && fresh(v.freeMapFile) && v.tags[1] == Own(1, -1)
    ensures ok ==> World(v.disk, v.tags[1 := Free], map[0 := FileState(v.freeMapFile.data, v.fmSecs)])
    ensures ok ==> |v.freeMapFile.data.direct| == DIRECT && Sector0(v.disk) == EncodeInode(v.freeMapFile.data)
    ensures ok ==>
              |v.fmSecs| == Cost(Sectors(Bitmaps.ByteCnt(|v.tags|))) && PrefixUsed(v.tags, 2 + |v.fmSecs|) && NoneLost(v.tags)
  {
    v := new Volume(device, cacheSlots);
    ghost var disk0, tags0 := v.disk, v.tags;
    FormattedPrefix(|tags0|);
    ok := FreeMaps.FreeMapCreate(v);
    if ok {
      v.MapFileFacts();
      MapFileWorld(v, v.freeMapFile, disk0, tags0);
      PrefixGrows(tags0, v.tags, 0, [], v.fmSecs, 2);
      GrowthLosesNothing(tags0, v.tags, 0, [], v.fmSecs);
    }
  }

  /** The sectors of the free map and of the root directory on a device with n mapped sectors. */
  function SystemSize(n: nat): nat {
    2 + Cost(Sectors(Bitmaps.ByteCnt(n))) + Cost(Sectors(36 * MAX_FILES_IN_DIRECTORY))
  }

  /** free_map_close and free_map_open on a freshly formatted volume, whose first m sectors are in use. */
  method Mount(v: Volume, root: Inode, ghost secs: seq<nat>, ghost m: nat) returns (fs: FileSystem)
    requires v.Ok() && v.freeMapFile != null && |v.freeMapFile.data.direct| == DIRECT
    requires Sector0(v.disk) == EncodeInode(v.freeMapFile.data) && PrefixUsed(v.tags, m)
    requires root.sector == 1 && !root.removed && root.denyWriteCnt == 0
    requires World(v.disk, v.tags, map[0 := FileState(v.freeMapFile.data, v.fmSecs), 1 := FileState(root.data, secs)])
    requires FileBytes(v.disk, FileState(root.data, secs)) == DirImage(NewSlots(MAX_FILES_IN_DIRECTORY))
    modifies v`tags, v`freeMapFile, v`fmSecs, v.cache, v.cache.cache, v.cache.device, v.freeMap.bits
    ensures fresh(fs) && fs.vol == v && fs.root == root && fs.Valid() && fs.View() == map[]
    ensures fs.slots == NewSlots(MAX_FILES_IN_DIRECTORY) && fs.Mountable()
    ensures v.tags == old(v.tags) && SystemPrefix(v.tags, m)
  {
    ghost var files := map[0 := FileState(v.freeMapFile.data, v.fmSecs), 1 := FileState(root.data, secs)];
    ghost var slots := NewSlots(MAX_FILES_IN_DIRECTORY);
    FreeMaps.MapIsStored(v);
    var ok := FreeMaps.FreeMapOpen(v, v.tags, v.freeMapFile.data, v.fmSecs);
    fs := new FileSystem(v, root, files, slots);
    fs.Settle(files, slots);
    NoneInUse(slots, 1);
    NamedNone(files);
    fs.NoFilesLeft(m);
  }

  // ----- Starting without formatting -----

  /** DISK holds a file system: files with these sectors and owners, the directory's entries SLOTS, and
      the bits of the free map; but the map's inode may have been zeroed. */
  ghost predicate DiskHolds(disk: seq<Block>, tags: seq<Tag>, files: Files, slots: seq<Entry>) {
    DiskHoldsBody(disk, tags, files, slots) == true
  }

  ghost predicate DiskHoldsBody(disk: seq<Block>, tags: seq<Tag>, files: Files, slots: seq<Entry>) {
    && 2 <= |tags| && |tags| + 1 == |disk| < NO_SECTOR && World(disk, tags, files) && 0 in files && 1 in files
    && Slots(slots) && FileBytes(disk, files[1]) == DirImage(slots) && Named(Dict(slots), files)
    && files[0].d.length == Bitmaps.ByteCnt(|tags|) && FileBytes(disk, files[0]) == Bitmaps.Image(UsedBits(tags))
  }

  /** The invariant of a file system is also one of its disk. */
  lemma ValidOnDisk(fs: FileSystem)
    requires fs.Valid()
    ensures DiskHolds(fs.vol.disk, fs.vol.tags, fs.files, fs.slots)
    ensures 0 in fs.files && (fs.Mountable() <==> Sector0(fs.vol.disk) == InodeBlock(fs.files[0].d))
  {
    fs.RootFacts();
    fs.vol.MapFileFacts();
    WorldFile(fs.vol.disk, fs.vol.tags, fs.files, 0);
  }

  function InodeBlock(d: InodeDisk): Block { if |d.direct| == DIRECT then EncodeInode(d) else Zeros() }

  lemma MapOnDisk(disk: seq<Block>, tags: seq<Tag>, files: Files, slots: seq<Entry>)
    requires DiskHolds(disk, tags, files, slots)
    ensures 0 in files && 2 <= |tags| && |tags| + 1 == |disk| < NO_SECTOR
    ensures FreeMaps.MapStored(disk, tags, files[0].d, files[0].secs) <==> Sector0(disk) == InodeBlock(files[0].d)
    ensures FreeMaps.MapStored(disk, tags, files[0].d, files[0].secs) || Sector0(disk) == Zeros()
  {
    assert Open(true);
    WorldFile(disk, tags, files, 0);
  }

  /** filesys_init without formatting, over a device that holds a file system: every name gets its bytes
      and every sector its use. The map cannot be read exactly when its inode was zeroed; the program
      says so and goes on with a map in which only the first two sectors are marked. */
  method Start(device: array<Block>, cacheSlots: nat, ghost tags: seq<Tag>, ghost files: Files, ghost slots: seq<Entry>)
    returns (ok: bool, v: Volume, fs: FileSystem?)
    requires DiskHolds(device[..], tags, files, slots) && cacheSlots > 0
    modifies device
    ensures 0 in files && (ok <==> Sector0(old(device[..])) == InodeBlock(files[0].d))
    ensures fresh(v) && v.cache.device == device && v.disk == old(device[..])
    ensures fresh(v.cache) && fresh(v.cache.cache) && fresh(v.freeMap) && fresh(v.freeMap.bits)
    ensures ok ==> fs != null && fresh(fs) && fresh(fs.root) && fs.vol == v
    ensures ok ==> fs.Valid() && fs.files == files && fs.slots == slots && v.tags == tags
    ensures !ok ==> FreeMaps.Zeroed(v) && v.tags == FormattedTags(device.Length - 1)
  {
    MapOnDisk(device[..], tags, files, slots);
    fs := null;
    assert device[..] == old(device[..]) && device.Length == |device[..]|;
    v := new Volume(device, cacheSlots);
    ok := FreeMaps.FreeMapOpen(v, tags, files[0].d, files[0].secs);
    if ok {
      fs := OpenRoot(v, tags, files, slots);
    }
  }

  /** The root directory opened on a volume that has its free map. */
  method OpenRoot(v: Volume, ghost tags: seq<Tag>, ghost files: Files, ghost slots: seq<Entry>) returns (fs: FileSystem)
    requires v.Ok() && v.freeMapFile != null && 0 in files && files[0] == FileState(v.freeMapFile.data, v.fmSecs)
    requires DiskHolds(v.disk, tags, files, slots) && v.tags == tags
    modifies v.cache, v.cache.cache, v.cache.device
    ensures fresh(fs) && fresh(fs.root) && fs.vol == v && fs.Valid() && fs.files == files && fs.slots == slots
  {
    WorldFile(v.disk, v.tags, files, 1);
    InodeRoundTrip(files[1].d);
    var root := Inodes.OpenInode(v, 1);
    fs := new FileSystem(v, root, files, slots);
    fs.Settle(files, slots);
  }

  /** filesys_done, and filesys_init without formatting on the same device, with nothing left of the old
      memory. */
  method Restart(fs: FileSystem, cacheSlots: nat) returns (ok: bool, v: Volume, fs1: FileSystem?)
    requires fs.Valid() && cacheSlots > 0
    modifies fs.vol.cache, fs.vol.cache.cache, fs.vol.cache.device
    ensures ok <==> old(fs.Mountable())
    ensures fresh(v) && fresh(v.cache) && fresh(v.cache.cache) && fresh(v.freeMap) && fresh(v.freeMap.bits)
    ensures v.cache.device == fs.vol.cache.device
    ensures ok ==> fs1 != null && fresh(fs1) && fresh(fs1.vol) && fs1.Valid() && fs1.Mountable()
    ensures ok ==> fs1.View() == old(fs.View()) && fs1.slots == old(fs.slots) && fs1.vol.tags == old(fs.vol.tags)
    ensures !ok ==> FreeMaps.Zeroed(v) && v.tags == FormattedTags(|old(fs.vol.tags)|)
    ensures !ok ==> World(v.disk, old(fs.vol.tags), fs.files) && ViewOf(v.disk, fs.files, Dict(fs.slots)) == old(fs.View())
  {
    ghost var tags0, files0, slots0 := fs.vol.tags, fs.files, fs.slots;
    ValidOnDisk(fs);
    fs.Done();
    ok, v, fs1 := Start(fs.vol.cache.device, cacheSlots, tags0, files0, slots0);
    if ok {
      ValidOnDisk(fs1);
    }
  }

  // ----- Going on with a zeroed map -----

  /** filesys_create: nothing can be allocated, so it fails and changes nothing. */
  method CreateZeroed(v: Volume, path: Name, size: Offset) returns (success: bool)
    requires FreeMaps.Zeroed(v)
    modifies v`tags, v.cache, v.cache.cache, v.cache.device, v.freeMap.bits
    ensures FreeMaps.Zeroed(v) && !success && v.tags == old(v.tags)
  {
    var directory, name := SplitPath(path);
    var ok, inodeSector := FreeMaps.AllocateZeroed(v);
    success := false;
    if ok {
      assert false;
    }
  }

  /** inode_open and inode_read_at of file ID, whose sectors the map in memory does not know: what they
      hold can still be read. */
  method ReadZeroed(v: Volume, id: nat, size: nat, offset: nat, ghost tags: seq<Tag>, ghost files: Files)
    returns (buffer: seq<Byte>)
    requires FreeMaps.Zeroed(v) && World(v.disk, tags, files) && id in files && id != 0 && |tags| < |v.disk|
    modifies v.cache, v.cache.cache, v.cache.device
    ensures FreeMaps.Zeroed(v) && buffer == Slice(FileBytes(v.disk, files[id]), offset, size)
  {
    WorldFile(v.disk, tags, files, id);
    InodeRoundTrip(files[id].d);
    var b := v.ReadSector(id);
    var inode := new Inode(id, DecodeInode(b));
    buffer := v.ReadAt(inode, size, offset, files[id].secs);
  }

  // ----- A creation that destroys the free map's inode -----

  lemma SmallDevice(n: nat)
    requires 74 <= n <= 198
    ensures SystemSize(n) == 74 && Sectors(Bitmaps.ByteCnt(n)) == 1
  {
  }

  /** A formatted device whose map takes one sector: N sectors, 74 of them in use. */
  method FormatSmall(n: nat) returns (fs: FileSystem)
    requires 74 <= n <= 198
    ensures fresh(fs) && fresh(fs.vol) && fresh(fs.root) && fresh(fs.vol.cache) && fresh(fs.vol.cache.cache)
    ensures fresh(fs.vol.cache.device) && fresh(fs.vol.freeMap) && fresh(fs.vol.freeMap.bits)
    ensures fs.Valid() && fs.View() == map[] && fs.slots == NewSlots(MAX_FILES_IN_DIRECTORY) && fs.Mountable()
    ensures |fs.vol.tags| == n && PrefixUsed(fs.vol.tags, 74) && SystemPrefix(fs.vol.tags, 74) && NoneLost(fs.vol.tags)
  {
    var device := new Block[n + 1](_ => Zeros());
    SmallDevice(n);
    var formatted, made := Format(device, 64);
    fs := made;
  }

  /** On a formatted device of 199 sectors 124 are free. A file of 63488 bytes, 124 data sectors, gets its
      inode and its 123 direct sectors, and then its indirect block cannot be allocated: they are lost,
      only the inode's is free again, and the free map can no longer be read. */
  method CreateZeroesMap() returns (fs: FileSystem)
    ensures fresh(fs) && fresh(fs.vol.cache) && fresh(fs.vol.cache.cache) && fresh(fs.vol.cache.device)
    ensures fs.Valid() && fs.View() == map[]
    ensures |fs.vol.tags| == 198 && |FreeList(fs.vol.tags)| == 1 && !fs.Mountable()
  {
    fs := FormatSmall(198);
    FreeListLength(fs.vol.tags, 74);
    FailedFile(fs.slots);
    var created;
    ghost var id;
    NameIsToken([97]);
    created, id := fs.Create([97], 63488);
  }

  /** Started again, that device has all but two of its sectors free in memory, and still no file can be
      created. */
  method CreateNothing() returns (created: bool)
    ensures !created
  {
    var fs := CreateZeroesMap();
    var ok, v, fs1 := Restart(fs, 64);
    FormattedPrefix(198);
    assert |FreeList(v.tags)| == 196;
    created := CreateZeroed(v, [97], 0);
  }

  lemma FreeListLength(tags: seq<Tag>, m: nat)
    requires PrefixUsed(tags, m)
    ensures |FreeList(tags)| == |tags| - m
  {
    PrefixFreeList(tags, m);
  }

  lemma {:induction false} FailedFile(slots: seq<Entry>)
    requires 1 < |slots| && slots[0].inUse && !slots[1].inUse
    ensures UnusedFrom(slots, 0) < |slots| && Undoable(124, 63488, slots, [97]) && Taken(124, 63488) == 123
    ensures forall root: nat :: CreateOverruns(124, 63488, slots, [97], root)
  {
    IndexIs(DIRECT);
  }
}
