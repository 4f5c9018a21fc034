/** The life of an inode (inode.c): creation, opening, enumeration of its sectors, and release. */
module Inodes {
  import opened Blocks
  import opened Layout
  import opened Content
  import opened Reserving
  import opened Releasing
  import opened Volumes

  // ----- free_map_release and inode_deallocate -----

  /** free_map_release(s, 1): the sector must be in use and outside the free map file. */
  method Release(v: Volume, s: nat)
    requires v.Ok() && v.freeMapFile != null
    requires s < |v.tags| && v.tags[s] != Free && !(v.tags[s].Own? && v.tags[s].id == 0)
    modifies v`disk, v`tags, v.cache, v.cache.cache, v.cache.device, v.freeMap.bits
    ensures v.Ok() && v.tags == old(v.tags)[s := Free] && DataOnly(old(v.disk), v.disk, v.tags, 0)
  {
    assert OpenMap(true);
    v.GiveBack(s);
    UntouchedFile(v.disk, v.disk, old(v.tags), v.tags, 0, v.freeMapFile.data, v.fmSecs);
    v.WriteMap();
  }

  /** inode_deallocate_indirect: releases the NUM data sectors below the entry at position P and the
      index blocks above them. */
  method DeallocateIndirect(v: Volume, entry: Word, num: nat, level: nat, ghost id: nat, ghost secs: seq<nat>, ghost p: nat)
    requires v.Ok() && v.freeMapFile != null && id != 0
    requires level <= 2 && (level > 0 ==> IndexHome(level, p)) && 0 < num <= Capacity(level)
    requires ClaimsIn(v.tags, id, secs, p, p + LevelCost(level, num)) && (level == 2 ==> p + LevelCost(level, num) == |secs|)
    requires entry == secs[p] && Tree(v.disk, secs, level, p)
    modifies v`disk, v`tags, v.cache, v.cache.cache, v.cache.device, v.freeMap.bits
    ensures v.Ok() && Released(old(v.disk), v.disk, old(v.tags), v.tags, id, secs, p, p + LevelCost(level, num))
    decreases level, 2
  {
    ghost var disk0, tags0 := v.disk, v.tags;
    if level == 0 {
      Release(v, entry);
      ReleasedOne(disk0, v.disk, tags0, v.tags, id, secs, p);
      return;
    }
    assert OpenMap(true);
    var b := v.ReadSector(entry);
    var ws := Words(b);
    DeallocateKids(v, ws, num, level, id, secs, p);
    ghost var disk1, tags1 := v.disk, v.tags;
    ReleasedKeeps(disk0, disk1, tags0, tags1, id, secs, p + 1, p + LevelCost(level, num), p, p + 1);
    Release(v, entry);
    ReleasedOne(disk1, v.disk, tags1, v.tags, id, secs, p);
    ReleasedMore(disk0, disk1, v.disk, tags0, tags1, v.tags, id, secs, p, p + 1, p + LevelCost(level, num));
  }

  /** Its loop over the entries WS of the index block at position P. */
  method DeallocateKids(v: Volume, ws: seq<Word>, num: nat, level: nat, ghost id: nat, ghost secs: seq<nat>, ghost p: nat)
    requires v.Ok() && v.freeMapFile != null && id != 0
    requires 1 <= level <= 2 && IndexHome(level, p) && 0 < num <= Capacity(level)
    requires ClaimsIn(v.tags, id, secs, p, p + LevelCost(level, num)) && (level == 2 ==> p + LevelCost(level, num) == |secs|)
    requires Tree(v.disk, secs, level, p) && ws == Words(v.disk[secs[p]])
    modifies v`disk, v`tags, v.cache, v.cache.cache, v.cache.device, v.freeMap.bits
    ensures v.Ok() && Released(old(v.disk), v.disk, old(v.tags), v.tags, id, secs, p + 1, p + LevelCost(level, num))
    decreases level, 1
  {
    ghost var disk0, tags0 := v.disk, v.tags;
    ReleasedNothing(v.disk, v.tags, id, secs, p + 1);
    var left: nat := num;
    for i := 0 to Entries(level, num)
      invariant v.Ok() && left + Min(num, Upto(level, i)) == num
      invariant Released(disk0, v.disk, tags0, v.tags, id, secs, p + 1, p + 1 + KidsCost(level, num - left))
    {
      KidInRange(level, p, num, i, left);
      DeallocateKid(v, ws, i, left, num, level, id, secs, p, disk0, tags0);
      left := left - Min(left, Unit(level));
    }
    Iterations(level, num, Entries(level, num));
  }

  /** One iteration of the loop, which started on DISK0 and TAGS0: the subtree at entry i. */
  method DeallocateKid(v: Volume, ws: seq<Word>, i: nat, left: nat, num: nat, level: nat, ghost id: nat, ghost secs: seq<nat>,
                       ghost p: nat, ghost disk0: seq<Block>, ghost tags0: seq<Tag>)
    requires v.Ok() && v.freeMapFile != null && id != 0
    requires 1 <= level <= 2 && IndexHome(level, p) && 0 < num <= Capacity(level) && i < Entries(level, num)
    requires ClaimsIn(tags0, id, secs, p, p + LevelCost(level, num)) && (level == 2 ==> p + LevelCost(level, num) == |secs|)
    requires secs[p] < |disk0| && Tree(disk0, secs, level, p) && ws == Words(disk0[secs[p]])
    requires left + Min(num, Upto(level, i)) == num
    requires Released(disk0, v.disk, tags0, v.tags, id, secs, p + 1, p + 1 + KidsCost(level, num - left))
    modifies v`disk, v`tags, v.cache, v.cache.cache, v.cache.device, v.freeMap.bits
    ensures v.Ok() && Min(left, Unit(level)) <= left
    ensures Released(disk0, v.disk, tags0, v.tags, id, secs, p + 1, p + 1 + KidsCost(level, num - left + Min(left, Unit(level))))
    decreases level, 0
  {
    var subsize := Min(left, Unit(level));
    ghost var disk1, tags1, c := v.disk, v.tags, Child(level, p, i);
    KidInRange(level, p, num, i, left);
    ChildHome(level, p, i);
    ReleasedKeeps(disk0, disk1, tags0, tags1, id, secs, p + 1, c, c, c + LevelCost(level - 1, subsize));
    if level == 2 {
      assert Tree(disk0, secs, 1, c);
      ReleasedTree(disk0, disk1, tags0, tags1, id, secs, p + 1, c, 1, c, c + 1);
    }
    DeallocateIndirect(v, ws[i], subsize, level - 1, id, secs, c);
    ReleasedMore(disk0, disk1, v.disk, tags0, tags1, v.tags, id, secs, p + 1, c, c + LevelCost(level - 1, subsize));
  }

  lemma KidInRange(level: nat, p: nat, num: nat, i: nat, left: nat)
    requires 1 <= level <= 2 && 0 < num <= Capacity(level) && i < Entries(level, num)
    requires left + Min(num, Upto(level, i)) == num
    ensures var sub := Min(left, Unit(level));
            && i < PER_BLOCK && 0 < sub <= left && sub <= Capacity(level - 1)
            && Child(level, p, i) == p + 1 + KidsCost(level, num - left)
            && Child(level, p, i) + LevelCost(level - 1, sub) == p + 1 + KidsCost(level, num - left + sub)
            && p + 1 + KidsCost(level, num - left + sub) <= p + LevelCost(level, num)
            && left - sub + Min(num, Upto(level, i + 1)) == num
  {
    Iterations(level, num, i);
    ChildReach(level, p, i, Min(left, Unit(level)));
    CostMonotone(level, num - left + Min(left, Unit(level)), num);
  }

  /** A zone of inode_deallocate that holds L > 0 data sectors, all before it being released since DISK0 and TAGS0. */
  method DeallocateZone(v: Volume, d: InodeDisk, l: nat, level: nat, ghost id: nat, ghost secs: seq<nat>,
                        ghost disk0: seq<Block>, ghost tags0: seq<Tag>)
    requires v.Ok() && v.freeMapFile != null && id != 0 && 1 <= level <= 2 && 0 < l <= Capacity(level)
    requires Claims(tags0, id, secs) && Zones(disk0, d, secs)
    requires ZoneStart(level) + LevelCost(level, l) <= |secs| && (level == 2 ==> DOUBLY_POS + LevelCost(2, l) == |secs|)
    requires Released(disk0, v.disk, tags0, v.tags, id, secs, 0, ZoneStart(level))
    modifies v`disk, v`tags, v.cache, v.cache.cache, v.cache.device, v.freeMap.bits
    ensures v.Ok()
    ensures Released(disk0, v.disk, tags0, v.tags, id, secs, 0, ZoneStart(level) + LevelCost(level, l))
  {
    ghost var disk1, tags1, p := v.disk, v.tags, ZoneStart(level);
    ghost var end := p + LevelCost(level, l);
    ZonesEntries(disk0, d, secs);
    ZoneHome(level);
    ReleasedKeeps(disk0, disk1, tags0, tags1, id, secs, 0, p, p, end);
    ReleasedTree(disk0, disk1, tags0, tags1, id, secs, 0, p, level, p, end);
    DeallocateIndirect(v, if level == 1 then d.indirect else d.doubly, l, level, id, secs, p);
    ReleasedMore(disk0, disk1, v.disk, tags0, tags1, v.tags, id, secs, 0, p, end);
  }

  /** The direct zone of inode_deallocate. */
  method DeallocateDirect(v: Volume, d: InodeDisk, l: nat, ghost id: nat, ghost secs: seq<nat>)
    requires v.Ok() && v.freeMapFile != null && id != 0 && l <= DIRECT && l <= |secs|
    requires Claims(v.tags, id, secs) && Zones(v.disk, d, secs)
    modifies v`disk, v`tags, v.cache, v.cache.cache, v.cache.device, v.freeMap.bits
    ensures v.Ok() && Released(old(v.disk), v.disk, old(v.tags), v.tags, id, secs, 0, l)
  {
    ghost var disk0, tags0 := v.disk, v.tags;
    ZonesEntries(disk0, d, secs);
    ReleasedNothing(v.disk, v.tags, id, secs, 0);
    for i := 0 to l
      invariant v.Ok() && Released(disk0, v.disk, tags0, v.tags, id, secs, 0, i)
    {
      ghost var disk1, tags1 := v.disk, v.tags;
      ReleasedKeeps(disk0, disk1, tags0, tags1, id, secs, 0, i, i, i + 1);
      Release(v, d.direct[i]);
      ReleasedOne(disk1, v.disk, tags1, v.tags, id, secs, i);
      ReleasedMore(disk0, disk1, v.disk, tags0, tags1, v.tags, id, secs, 0, i, i + 1);
    }
  }

  /** inode_deallocate: releases exactly the data and index sectors of the file, each once. */
  method Deallocate(v: Volume, inode: Inode, ghost secs: seq<nat>)
    requires v.Ok() && v.freeMapFile != null && inode.sector != 0
    requires Claims(v.tags, inode.sector, secs) && Zones(v.disk, inode.data, secs)
    requires Sectors(inode.data.length) <= MAX_SECTORS && |secs| == Cost(Sectors(inode.data.length))
    modifies v`disk, v`tags, v.cache, v.cache.cache, v.cache.device, v.freeMap.bits
    ensures v.Ok() && Released(old(v.disk), v.disk, old(v.tags), v.tags, inode.sector, secs, 0, |secs|)
  {
    ghost var disk0, tags0, id := v.disk, v.tags, inode.sector;
    var numSectors := Sectors(inode.data.length);
    CostOfZones(numSectors);

    // direct blocks
    var l := Min(numSectors, DIRECT);
    DeallocateDirect(v, inode.data, l, id, secs);
    numSectors := numSectors - l;

    // a single indirect block
    l := Min(numSectors, PER_BLOCK);
    if l > 0 {
      DeallocateZone(v, inode.data, l, 1, id, secs, disk0, tags0);
      numSectors := numSectors - l;
    }

    // a single doubly indirect block
    l := Min(numSectors, PER_BLOCK * PER_BLOCK);
    if l > 0 {
      DeallocateZone(v, inode.data, l, 2, id, secs, disk0, tags0);
    }
  }

  /** What inode_close leaves of a removed file: its inode and all its sectors are free. */
  ghost predicate Removed(disk0: seq<Block>, disk1: seq<Block>, tags0: seq<Tag>, tags1: seq<Tag>, id: nat, secs: seq<nat>) {
    RemovedBody(disk0, disk1, tags0, tags1, id, secs) == true
  }

  ghost predicate RemovedBody(disk0: seq<Block>, disk1: seq<Block>, tags0: seq<Tag>, tags1: seq<Tag>, id: nat, secs: seq<nat>) {
    Freed(tags0, tags1, id, secs) && DataOnly(disk0, disk1, tags0, 0)
  }

  /** Exactly the inode's sector and the file's sectors became free. */
  ghost predicate Freed(tags0: seq<Tag>, tags1: seq<Tag>, id: nat, secs: seq<nat>) {
    && |tags1| == |tags0|
    && (forall t :: 0 <= t < |tags0| ==>
         tags1[t] == if t == id || Within(tags0[t], t, id, secs, 0, |secs|) then Free else tags0[t])
    && |FreeList(tags1)| == |FreeList(tags0)| + 1 + |secs|
  }

  lemma ToRemoved(disk0: seq<Block>, disk1: seq<Block>, disk2: seq<Block>, tags0: seq<Tag>, tags1: seq<Tag>, tags2: seq<Tag>,
                  id: nat, secs: seq<nat>)
    requires id != 0 && id < |tags0| && tags0[id] == Own(id, -1) && tags1 == tags0[id := Free] && DataOnly(disk0, disk1, tags1, 0)
    requires Released(disk1, disk2, tags1, tags2, id, secs, 0, |secs|)
    ensures Removed(disk0, disk2, tags0, tags2, id, secs)
  {
    assert Open(true);
    ReleaseOne(tags0, id, 0);
    forall t | 0 <= t < |disk0| && disk2[t] != disk0[t]
      ensures t < |tags0| && tags0[t].Own? && tags0[t].id == 0 && tags0[t].pos >= 0 && !IsIndex(tags0[t].pos)
    {
      if disk2[t] == disk1[t] {
        assert disk1[t] != disk0[t];
      }
    }
  }

  lemma KeptZones(disk0: seq<Block>, disk1: seq<Block>, tags0: seq<Tag>, id: nat, d: InodeDisk, secs: seq<nat>)
    requires id != 0 && id < |tags0| <= |disk0| && tags0[id] == Own(id, -1)
    requires IsFile(disk0, tags0, id, d, secs) && DataOnly(disk0, disk1, tags0[id := Free], 0)
    ensures Claims(tags0[id := Free], id, secs) && Zones(disk1, d, secs)
  {
    UntouchedRep(disk0, disk1, tags0, id, d, secs);
    ToZones(disk1, d, secs);
  }

  /** inode_close of the last handle: a removed inode gives back its own sector and its file's. */
  method Close(v: Volume, inode: Inode, ghost secs: seq<nat>)
    requires v.Ok() && v.freeMapFile != null && inode.sector != 0 && v.Opened(inode, secs)
    modifies v`disk, v`tags, v.cache, v.cache.cache, v.cache.device, v.freeMap.bits
    ensures v.Ok()
    ensures inode.removed ==> Removed(old(v.disk), v.disk, old(v.tags), v.tags, inode.sector, secs)
    ensures !inode.removed ==> v.disk == old(v.disk) && v.tags == old(v.tags)
  {
    if inode.removed {
      ghost var disk0, tags0, id := v.disk, v.tags, inode.sector;
      assert OpenMap(true);
      Release(v, inode.sector);
      ghost var disk1, tags1 := v.disk, v.tags;
      KeptZones(disk0, disk1, tags0, id, inode.data, secs);
      Deallocate(v, inode, secs);
      ToRemoved(disk0, disk1, v.disk, tags0, tags1, v.tags, id, secs);
    }
  }

  /** Creating a file and removing it leaves the free map as it was. */
  lemma CreateThenRemove(disk2: seq<Block>, disk3: seq<Block>, tags0: seq<Tag>, tags1: seq<Tag>, tags2: seq<Tag>, tags3: seq<Tag>,
                         id: nat, secs: seq<nat>)
    requires id < |tags0| && tags0[id] == Free && tags1 == tags0[id := Own(id, -1)]
    requires Grew(tags1, tags2, id, [], secs) && Removed(disk2, disk3, tags2, tags3, id, secs)
    ensures tags3 == tags0
  {
    GrewPrefix(tags1, tags2, id, [], secs);
    forall t | 0 <= t < |tags0|
      ensures tags3[t] == tags0[t]
    {
      if t != id && Within(tags2[t], t, id, secs, 0, |secs|) {
        assert t == FreeList(tags1)[tags2[t].pos];
      }
    }
  }

  // ----- inode_create and inode_open -----

  /** A new file's inode and zeroed contents, before the inode is written. */
  lemma NewFile(disk0: seq<Block>, disk1: seq<Block>, tags0: seq<Tag>, tags1: seq<Tag>, id: nat, d1: InodeDisk,
                secs1: seq<nat>, length: Word, isDir: bool)
    requires Reserved(disk0, disk1, tags0, tags1, id, [], secs1, 0, END) && Zones(disk1, d1, secs1)
    requires |secs1| == Cost(Sectors(length)) && Sectors(length) <= MAX_SECTORS && |tags0| <= |disk0|
    requires d1 == EmptyInode(length, isDir).(direct := d1.direct, indirect := d1.indirect, doubly := d1.doubly)
    ensures IsFile(disk1, tags1, id, d1, secs1) && SameKind(EmptyInode(0, isDir), d1)
    ensures Bytes(disk1, secs1, length) == Extended(Bytes(disk0, [], 0), length)
    ensures Grew(tags0, tags1, id, [], secs1) && FileOnly(disk0, disk1, tags1, id)
  {
    var d0 := EmptyInode(0, isDir);
    EmptyFile(disk0, tags0, id, isDir);
    ReservedGrew(disk0, disk1, tags0, tags1, id, [], secs1, 0, END);
    ReservedOnly(disk0, disk1, tags0, tags1, id, [], secs1, 0, END);
    ZonesEntries(disk1, d1, secs1);
    GrownFile(disk0, disk1, tags0, tags1, id, d0, d1, [], secs1, length);
    assert d1.(length := length) == d1;
  }

  lemma EmptyFile(disk: seq<Block>, tags: seq<Tag>, id: nat, isDir: bool)
    ensures IsFile(disk, tags, id, EmptyInode(0, isDir), [])
  {
  }

  /** inode_create in the allocated sector ID. It succeeds exactly when the length is supported and
      enough sectors are free; the file then has LENGTH zero bytes. */
  method Create(v: Volume, sector: nat, length: Offset, isDir: bool) returns (success: bool, ghost d: InodeDisk, ghost secs: seq<nat>)
    requires v.Ok() && sector < |v.tags| && v.tags[sector] == Own(sector, -1)
    requires sector == 0 ==> v.freeMapFile == null
    modifies v`disk, v`tags, v.cache, v.cache.cache, v.cache.device, v.freeMap.bits
    ensures v.Ok()
    ensures success <==> length >= 0 && Sectors(length) <= MAX_SECTORS && Cost(Sectors(length)) <= |FreeList(old(v.tags))|
    ensures success ==>
      Lengthened(old(v.disk), v.disk, old(v.tags), v.tags, sector, EmptyInode(0, isDir), d, [], secs, length)
    ensures success ==>
      forall n: nat :: Fill(n, length) ==>
        |FreeList(old(v.tags))| - |FreeList(v.tags)|
        == n + (if n > 123 then 1 else 0) + (if n > 251 then 1 + (n - 251 + 127) / 128 else 0)
    ensures !success ==> Refused(old(v.disk), v.disk, old(v.tags), v.tags, sector, [], secs, Wanted(length))
  {
    ghost var disk0, tags0 := v.disk, v.tags;
    var diskInode := EmptyInode(if length < 0 then length + 0x1_0000_0000 else length, isDir);
    ZonesOfEmpty(v.disk, diskInode);
    success, diskInode, secs := v.Reserve(diskInode, length, sector, []);
    d := diskInode;
    if success {
      NewFile(disk0, v.disk, tags0, v.tags, sector, d, secs, length, isDir);
      ghost var disk1 := v.disk;
      BytesCost(length);
      ReservedFacts(disk0, disk1, tags0, v.tags, sector, [], secs, 0, END);
      assert v.tags[sector] == Own(sector, -1);
      v.WriteOutside(sector, EncodeInode(diskInode));
      ToLengthened(disk0, disk1, v.disk, tags0, v.tags, sector, EmptyInode(0, isDir), d, [], secs, length);
    }
  }

  lemma ZonesOfEmpty(disk: seq<Block>, d: InodeDisk)
    requires d == EmptyInode(d.length, d.isDir)
    ensures Zones(disk, d, [])
  {
    ToZones(disk, d, []);
  }

  /** inode_open of a sector that is not open yet. */
  method OpenInode(v: Volume, sector: nat) returns (inode: Inode)
    requires v.Ok() && sector < |v.disk|
    modifies v.cache, v.cache.cache, v.cache.device
    ensures v.Ok() && fresh(inode) && inode.sector == sector && inode.data == DecodeInode(v.disk[sector])
    ensures !inode.removed && inode.denyWriteCnt == 0
  {
    assert OpenMap(true);
    var b := v.ReadSector(sector);
    inode := new Inode(sector, DecodeInode(b));
  }

  /** inode_read_at between operations. */
  method ReadOpen(v: Volume, inode: Inode, size: nat, offset: nat, ghost secs: seq<nat>) returns (buffer: seq<Byte>)
    requires v.Ok() && v.Holds(inode, secs)
    modifies v.cache, v.cache.cache, v.cache.device
    ensures v.Ok() && buffer == Slice(Bytes(v.disk, secs, inode.data.length), offset, size)
  {
    assert OpenMap(true);
    buffer := v.ReadAt(inode, size, offset, secs);
  }

  // ----- get_inode_data_sectors -----

  /** The direct zone of the enumeration. */
  method ListDirect(d: InodeDisk, l: nat, sectors: array<nat>, ghost disk: seq<Block>, ghost secs: seq<nat>)
    requires Rep(disk, d, secs) && l <= DIRECT && l <= sectors.Length && (l == 0 || Pos(l - 1) < |secs|)
    modifies sectors
    ensures forall i :: 0 <= i < l ==> sectors[i] == At(secs, Pos(i))
  {
    for i := 0 to l
      invariant forall k :: 0 <= k < i ==> sectors[k] == At(secs, Pos(k))
    {
      sectors[i] := d.direct[i];
    }
  }

  /** The entries of one index block: NUM data sectors from data index BASE on. */
  method ListBlock(v: Volume, entry: nat, num: nat, base: nat, sectors: array<nat>, ghost secs: seq<nat>)
    requires v.Ok() && num <= PER_BLOCK && base + num <= sectors.Length && entry < |v.disk|
    requires forall k :: 0 <= k < num ==> Words(v.disk[entry])[k] == At(secs, Pos(base + k))
    requires sectors as object !in {v.cache, v.cache.cache, v.cache.device, v.freeMap, v.freeMap.bits}
    modifies v.cache, v.cache.cache, v.cache.device, sectors
    ensures v.Ok()
    ensures forall i :: 0 <= i < sectors.Length && !(base <= i < base + num) ==> sectors[i] == old(sectors[i])
    ensures forall i :: base <= i < base + num ==> sectors[i] == At(secs, Pos(i))
  {
    assert OpenMap(true);
    var b := v.ReadSector(entry);
    var ws := Words(b);
    for k := 0 to num
      invariant v.Ok()
      invariant forall i :: 0 <= i < sectors.Length && !(base <= i < base + k) ==> sectors[i] == old(sectors[i])
      invariant forall i :: base <= i < base + k ==> sectors[i] == At(secs, Pos(i))
    {
      assert ws[k] == At(secs, Pos(base + k));
      sectors[base + k] := ws[k];
    }
  }

  /** The index block at entry i of the doubly indirect block lists the data sectors from 251 + 128 i on. */
  lemma SecondLevel(disk: seq<Block>, d: InodeDisk, secs: seq<nat>, i: nat)
    requires Rep(disk, d, secs) && i < PER_BLOCK && Pos(SINGLE_END + PER_BLOCK * i) < |secs|
    ensures d.doubly < |disk| && Words(disk[d.doubly])[i] < |disk|
    ensures forall k :: 0 <= k < PER_BLOCK ==>
              Words(disk[Words(disk[d.doubly])[i]])[k] == At(secs, Pos(SINGLE_END + PER_BLOCK * i + k))
  {
    PosSplit(SINGLE_END + PER_BLOCK * i);
    var c := Child(2, DOUBLY_POS, i);
    assert Tree(disk, secs, 1, c);
    forall k | 0 <= k < PER_BLOCK
      ensures Words(disk[secs[c]])[k] == At(secs, Pos(SINGLE_END + PER_BLOCK * i + k))
    {
      PosSplit(SINGLE_END + PER_BLOCK * i + k);
      assert Child(1, c, k) == Pos(SINGLE_END + PER_BLOCK * i + k);
    }
  }

  /** One turn of its loop: the index block at entry i of the doubly indirect block, whose entries are WS. */
  method ListGroup(v: Volume, ghost d: InodeDisk, ws: seq<Word>, i: nat, subsize: nat, sectors: array<nat>, ghost secs: seq<nat>)
    requires v.Ok() && Rep(v.disk, d, secs) && i < PER_BLOCK && Pos(SINGLE_END + PER_BLOCK * i) < |secs|
    requires d.doubly < |v.disk| && ws == Words(v.disk[d.doubly])
    requires subsize <= PER_BLOCK && SINGLE_END + PER_BLOCK * i + subsize <= sectors.Length
    requires sectors as object !in {v.cache, v.cache.cache, v.cache.device, v.freeMap, v.freeMap.bits}
    modifies v.cache, v.cache.cache, v.cache.device, sectors
    ensures v.Ok()
    ensures var base := SINGLE_END + PER_BLOCK * i;
            && (forall j :: 0 <= j < base ==> sectors[j] == old(sectors[j]))
            && (forall j :: base <= j < base + subsize ==> sectors[j] == At(secs, Pos(j)))
  {
    SecondLevel(v.disk, d, secs, i);
    ListBlock(v, ws[i], subsize, SINGLE_END + PER_BLOCK * i, sectors, secs);
  }

  /** The last zone of the enumeration, which holds NUM data sectors. */
  method ListDoubly(v: Volume, d: InodeDisk, num: nat, sectors: array<nat>, ghost secs: seq<nat>)
    requires v.Ok() && Rep(v.disk, d, secs) && 0 < num <= PER_BLOCK * PER_BLOCK
             && SINGLE_END + num == sectors.Length && |secs| == Cost(SINGLE_END + num)
    requires sectors as object !in {v.cache, v.cache.cache, v.cache.device, v.freeMap, v.freeMap.bits}
    modifies v.cache, v.cache.cache, v.cache.device, sectors
    ensures v.Ok()
    ensures forall i :: 0 <= i < SINGLE_END ==> sectors[i] == old(sectors[i])
    ensures forall i :: SINGLE_END <= i < sectors.Length ==> sectors[i] == At(secs, Pos(i))
  {
    InFile(SINGLE_END, SINGLE_END + num);
    SecondLevel(v.disk, d, secs, 0);
    assert OpenMap(true);
    var b := v.ReadSector(d.doubly);
    var ws := Words(b);
    var left: nat := num;
    for i := 0 to (num + (PER_BLOCK - 1)) / PER_BLOCK
      invariant v.Ok() && left + Min(num, PER_BLOCK * i) == num
      invariant forall i :: 0 <= i < SINGLE_END ==> sectors[i] == old(sectors[i])
      invariant forall j :: SINGLE_END <= j < SINGLE_END + num - left ==> sectors[j] == At(secs, Pos(j))
    {
      InFile(SINGLE_END + PER_BLOCK * i, SINGLE_END + num);
      var subsize := Min(left, PER_BLOCK);
      ListGroup(v, d, ws, i, subsize, sectors, secs);
      left := left - subsize;
    }
  }

  /** get_inode_data_sectors: every data sector in order, the sector that index_to_sector finds one by one. */
  method DataSectors(v: Volume, inode: Inode, ghost secs: seq<nat>) returns (sectors: array<nat>)
    requires v.Ok() && v.Holds(inode, secs)
    modifies v.cache, v.cache.cache, v.cache.device
    ensures v.Ok() && fresh(sectors) && sectors.Length == Sectors(inode.data.length)
    ensures forall i :: 0 <= i < sectors.Length ==> Pos(i) < |secs| && sectors[i] == secs[Pos(i)]
  {
    var numSectors := Sectors(inode.data.length);
    ghost var n := numSectors;
    sectors := new nat[numSectors];
    forall i | 0 <= i < n
      ensures Pos(i) < |secs|
    {
      InFile(i, n);
    }
    var l := Min(numSectors, DIRECT);
    ListDirect(inode.data, l, sectors, v.disk, secs);
    numSectors := numSectors - l;
    l := Min(numSectors, PER_BLOCK);
    if l > 0 {
      FirstLevel(v.disk, inode.data, secs);
      ListBlock(v, inode.data.indirect, l, DIRECT, sectors, secs);
      numSectors := numSectors - l;
    }
    l := Min(numSectors, PER_BLOCK * PER_BLOCK);
    if l > 0 {
      ListDoubly(v, inode.data, l, sectors, secs);
    }
  }

  /** The indirect block lists the data sectors from 123 on. */
  lemma FirstLevel(disk: seq<Block>, d: InodeDisk, secs: seq<nat>)
    requires Rep(disk, d, secs) && DIRECT < |secs|
    ensures d.indirect < |disk|
    ensures forall k :: 0 <= k < PER_BLOCK ==> Words(disk[d.indirect])[k] == At(secs, Pos(DIRECT + k))
  {
    forall k | 0 <= k < PER_BLOCK
      ensures Words(disk[secs[DIRECT]])[k] == At(secs, Pos(DIRECT + k))
    {
      assert Child(1, DIRECT, k) == Pos(DIRECT + k);
    }
  }
}
