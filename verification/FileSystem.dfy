/** The file system (filesys.c, dir_add and dir_remove of directory.c): format, create and remove
    over one volume with one directory, the root. */
module FileSystems {
  import opened Blocks
  import opened Layout
  import opened Content
  import opened Reserving
  import opened Volumes
  import opened Ownership
  import opened Directories
  import opened Catalogs
  import opened Growth
  import opened Paths
  import FreeMaps
  import Inodes

  /** An entry written at slot K of the root directory. */
  lemma EntryWritten(disk0: seq<Block>, disk1: seq<Block>, tags0: seq<Tag>, tags1: seq<Tag>, files: Files,
                     d1: InodeDisk, secs1: seq<nat>, slots: seq<Entry>, k: nat, e: Entry)
    requires World(disk0, tags0, files) && 0 in files && 1 in files && |tags0| < |disk0| && k <= |slots|
    requires Written(disk0, disk1, tags0, tags1, 1, files[1].d, d1, files[1].secs, secs1, 36 * k, EncodeEntry(e))
    requires FileBytes(disk0, files[1]) == DirImage(slots)
    requires IsFile(disk1, tags1, 0, files[0].d, files[0].secs)
    ensures World(disk1, tags1, files[1 := FileState(d1, secs1)])
    ensures FileBytes(disk1, FileState(d1, secs1)) == DirImage(Put(slots, k, e))
    ensures SameBytes(disk0, disk1, files, 1) && Grew(tags0, tags1, 1, files[1].secs, secs1)
    ensures Sector0(disk1) == Sector0(disk0)
    ensures k < |slots| ==> tags1 == tags0 && files[1 := FileState(d1, secs1)] == files
  {
    ImagePut(slots, k, e);
    WrittenFacts(disk0, disk1, tags0, tags1, 1, files[1].d, d1, files[1].secs, secs1, 36 * k, EncodeEntry(e));
    WorldWrite(disk0, disk1, tags0, tags1, files, 1, d1, secs1, 36 * k, EncodeEntry(e));
  }

  /** A file of SIZE zero bytes was made in the first free sector, with the next free sectors. */
  ghost predicate Made(disk0: seq<Block>, disk1: seq<Block>, tags0: seq<Tag>, tags1: seq<Tag>, files0: Files, files1: Files,
                       id: nat, size: nat) {
    MadeBody(disk0, disk1, tags0, tags1, files0, files1, id, size) == true
  }

  ghost predicate MadeBody(disk0: seq<Block>, disk1: seq<Block>, tags0: seq<Tag>, tags1: seq<Tag>, files0: Files, files1: Files,
                           id: nat, size: nat) {
    && 2 <= id < |tags0| && FreeList(tags0) != [] && FreeList(tags0)[0] == id
    && id !in files0 && id in files1 && files1 == files0[id := files1[id]]
    && files1[id].d.length == size && !files1[id].d.isDir
    && FileBytes(disk1, files1[id]) == seq(size, _ => 0)
    && |files1[id].secs| == Cost(Sectors(size))
    && Grew(tags0[id := Own(id, -1)], tags1, id, [], files1[id].secs)
    && SamePlain(disk0, disk1, files0, id) && Sector0(disk1) == Sector0(disk0) && SystemKept(tags0, tags1)
  }

  lemma CreateMakes(disk0: seq<Block>, disk1: seq<Block>, disk2: seq<Block>, tags0: seq<Tag>, tags1: seq<Tag>, tags2: seq<Tag>,
                    files: Files, id: nat, d: InodeDisk, secs: seq<nat>, size: Word)
    requires World(disk0, tags0, files) && 0 in files && 1 in files && FreeList(tags0) != [] && id == FreeList(tags0)[0]
    requires 2 <= id < |tags0| < |disk0| && tags0[id] == Free && tags0[1] == Own(1, -1)
    requires tags1 == tags0[id := Own(id, -1)] && DataOnly(disk0, disk1, tags1, 0)
    requires Lengthened(disk1, disk2, tags1, tags2, id, EmptyInode(0, false), d, [], secs, size)
    requires IsFile(disk2, tags2, 0, files[0].d, files[0].secs)
    ensures var files1 := files[id := FileState(d, secs)];
            World(disk2, tags2, files1) && Made(disk0, disk2, tags0, tags2, files, files1, id, size)
    ensures id != 1 && FileBytes(disk2, files[1]) == FileBytes(disk0, files[1])
    ensures Intruded(disk0, disk2, tags0, tags2, id) && tags2[id] == Own(id, -1)
  {
    WorldCreate(disk0, disk1, disk2, tags0, tags1, tags2, files, id, EmptyInode(0, false), d, secs, size);
    assert Sector0(disk2) == Sector0(disk0);
    FreeMaps.LengthenedFacts(disk1, disk2, tags1, tags2, id, EmptyInode(0, false), d, [], secs, size);
    CreationIntrudes(disk0, disk1, disk2, tags0, tags1, tags2, id, secs);
    GrowthKeepsSystem(tags1, tags2, id, [], secs);
    assert FileBytes(disk2, FileState(d, secs)) == seq(size, _ => 0);
  }

  /** The first free sector is neither the free map's inode nor the root directory's. */
  lemma FirstIsPlain(disk: seq<Block>, tags: seq<Tag>, files: Files)
    requires World(disk, tags, files) && 0 in files && 1 in files && FreeList(tags) != []
    ensures var id := FreeList(tags)[0];
            && 2 <= id < |tags| < |disk| && tags[id] == Free && tags[0] == Own(0, -1) && tags[1] == Own(1, -1)
            && |FreeList(tags[id := Own(id, -1)])| == |FreeList(tags)| - 1
  {
    FirstFree(tags);
    WorldFile(disk, tags, files, 0);
    WorldFile(disk, tags, files, 1);
    TakeFirstFree(tags, FreeList(tags)[0], Own(FreeList(tags)[0], -1));
  }

  lemma MadeCount(disk0: seq<Block>, disk1: seq<Block>, tags0: seq<Tag>, tags1: seq<Tag>, files0: Files, files1: Files,
                  id: nat, size: nat)
    requires Made(disk0, disk1, tags0, tags1, files0, files1, id, size)
    ensures |FreeList(tags1)| == |FreeList(tags0)| - 1 - Cost(Sectors(size))
    ensures 2 <= id && id !in files0 && id in files1 && files1 == files0[id := files1[id]] && SystemKept(tags0, tags1)
  {
    FirstFree(tags0);
    TakeFirstFree(tags0, id, Own(id, -1));
  }

  /** Behind a prefix of used sectors a new file is not fragmented, and the used sectors are a prefix again. */
  lemma MadeIsWhole(disk0: seq<Block>, disk1: seq<Block>, tags0: seq<Tag>, tags1: seq<Tag>, files0: Files, files1: Files,
                    id: nat, size: nat, m: nat)
    requires Made(disk0, disk1, tags0, tags1, files0, files1, id, size) && PrefixUsed(tags0, m)
    ensures id == m && id in files1 && !Fragmented(files1[id].secs, Sectors(size))
    ensures PrefixUsed(tags1, m + 1 + Cost(Sectors(size)))
  {
    FirstFree(tags0);
    PrefixFreeList(tags0, m);
    PrefixGrows(tags0[id := Own(id, -1)], tags1, id, [], files1[id].secs, m + 1);
    CompactIsWhole(files1[id].secs, Sectors(size));
  }

  /** A successful creation, seen through the names: the new file reads as SIZE zero bytes and every
      other file as before. While the directory has a free slot, only the new file takes sectors. */
  ghost predicate Created(disk0: seq<Block>, disk1: seq<Block>, tags0: seq<Tag>, tags1: seq<Tag>, files0: Files, files1: Files,
                          slots0: seq<Entry>, slots1: seq<Entry>, id: nat, size: nat, name: Name) {
    CreatedBody(disk0, disk1, tags0, tags1, files0, files1, slots0, slots1, id, size, name) == true
  }

  ghost predicate CreatedBody(disk0: seq<Block>, disk1: seq<Block>, tags0: seq<Tag>, tags1: seq<Tag>, files0: Files, files1: Files,
                              slots0: seq<Entry>, slots1: seq<Entry>, id: nat, size: nat, name: Name) {
    && id < NO_SECTOR
    && slots1 == Put(slots0, UnusedFrom(slots0, 0), Entry(id, name, true))
    && Dict(slots1) == Dict(slots0)[name := id]
    && ViewOf(disk1, files1, Dict(slots1)) == ViewOf(disk0, files0, Dict(slots0))[name := seq(size, _ => 0)]
    && Sector0(disk1) == Sector0(disk0) && LostKept(tags0, tags1)
    && 1 in files0 && 1 in files1 && |files0[1].secs| <= |files1[1].secs|
    && |FreeList(tags1)| == |FreeList(tags0)| - 1 - Cost(Sectors(size)) - (|files1[1].secs| - |files0[1].secs|)
    && (UnusedFrom(slots0, 0) < |slots0| ==> Made(disk0, disk1, tags0, tags1, files0, files1, id, size))
  }

  lemma {:induction false} CreatedFacts(disk0: seq<Block>, disk1: seq<Block>, tags0: seq<Tag>, tags1: seq<Tag>, files0: Files, files1: Files,
                     slots0: seq<Entry>, slots1: seq<Entry>, id: nat, size: nat, name: Name)
    requires Created(disk0, disk1, tags0, tags1, files0, files1, slots0, slots1, id, size, name)
    ensures LostKept(tags0, tags1) && Sector0(disk1) == Sector0(disk0) && 1 in files0 && 1 in files1
    ensures |FreeList(tags1)| == |FreeList(tags0)| - 1 - Cost(Sectors(size)) - (|files1[1].secs| - |files0[1].secs|)
    ensures |slots1| == if UnusedFrom(slots0, 0) < |slots0| then |slots0| else |slots0| + 1
  {
  }

  /** A new file and then its entry in the root directory. */
  lemma {:induction false} NewName(disk0: seq<Block>, disk1: seq<Block>, disk2: seq<Block>, tags0: seq<Tag>, tags1: seq<Tag>, tags2: seq<Tag>,
                files0: Files, files1: Files, files2: Files, slots0: seq<Entry>, slots2: seq<Entry>, id: nat, size: nat, name: Name)
    requires Made(disk0, disk1, tags0, tags1, files0, files1, id, size) && Named(Dict(slots0), files0) && name !in Dict(slots0)
    requires 1 in files0 && id != 1
    requires |tags0| < NO_SECTOR && 1 in files1 && 1 in files2 && files2 == files1[1 := files2[1]]
             && SameBytes(disk1, disk2, files1, 1)
    requires Sector0(disk2) == Sector0(disk1) && Grew(tags1, tags2, 1, files1[1].secs, files2[1].secs)
    requires slots2 == Put(slots0, UnusedFrom(slots0, 0), Entry(id, name, true)) && Dict(slots2) == Dict(slots0)[name := id]
    requires UnusedFrom(slots0, 0) < |slots0| ==> files2 == files1 && tags2 == tags1
    ensures Named(Dict(slots2), files2)
    ensures Created(disk0, disk2, tags0, tags2, files0, files2, slots0, slots2, id, size, name)
  {
    var dict := Dict(slots0);
    MadeCount(disk0, disk1, tags0, tags1, files0, files1, id, size);
    GrowthLosesNothing(tags1, tags2, 1, files1[1].secs, files2[1].secs);
    NamedCreate(dict, files0, name, id, files1[id]);
    ViewCreate(disk0, disk1, dict, files0, name, id, files1[id]);
    NamedRoot(dict[name := id], files1, files2[1]);
    ViewKept(disk1, disk2, dict[name := id], files1, files2, 1);
    if files2 == files1 {
      forall j | j in files0 && j != id && j >= 2
        ensures FileBytes(disk2, files0[j]) == FileBytes(disk0, files0[j])
      {
        assert files1[j] == files0[j];
      }
    }
  }

  /** A removed file, seen through the names. */
  lemma NameRemoved(disk0: seq<Block>, disk1: seq<Block>, tags0: seq<Tag>, tags1: seq<Tag>, files: Files,
                    dict: map<Name, Word>, name: Name)
    requires World(disk0, tags0, files) && Named(dict, files) && name in dict && 0 in files && 1 in files
    requires dict[name] as nat in files && Inodes.Removed(disk0, disk1, tags0, tags1, dict[name], files[dict[name] as nat].secs)
    requires IsFile(disk1, tags1, 0, files[0].d, files[0].secs)
    ensures World(disk1, tags1, files - {dict[name] as nat}) && Named(dict - {name}, files - {dict[name] as nat})
    ensures ViewOf(disk1, files - {dict[name] as nat}, dict - {name}) == ViewOf(disk0, files, dict) - {name}
    ensures FileBytes(disk1, files[1]) == FileBytes(disk0, files[1]) && Sector0(disk1) == Sector0(disk0)
    ensures SystemKept(tags0, tags1)
  {
    NamedFacts(dict, files, name);
    WorldFile(disk0, tags0, files, 0);
    WorldFile(disk0, tags0, files, dict[name]);
    WorldRemove(disk0, disk1, tags0, tags1, files, dict[name]);
    NamedRemove(dict, files, name);
    ViewRemove(disk0, disk1, dict, files, name);
  }

  /** A write to a file, seen through the names. */
  lemma NameWritten(disk0: seq<Block>, disk1: seq<Block>, tags0: seq<Tag>, tags1: seq<Tag>, files: Files, dict: map<Name, Word>,
                    name: Name, d1: InodeDisk, secs1: seq<nat>, offset: nat, bytes: seq<Byte>)
    requires World(disk0, tags0, files) && Named(dict, files) && name in dict && 0 in files && 1 in files && |tags0| < |disk0|
    requires var id: nat := dict[name];
             id in files && Written(disk0, disk1, tags0, tags1, id, files[id].d, d1, files[id].secs, secs1, offset, bytes)
    requires IsFile(disk1, tags1, 0, files[0].d, files[0].secs)
    ensures var files1 := files[dict[name] as nat := FileState(d1, secs1)];
            && World(disk1, tags1, files1) && Named(dict, files1)
            && name in ViewOf(disk0, files, dict)
            && ViewOf(disk1, files1, dict) ==
               ViewOf(disk0, files, dict)[name := Spliced(ViewOf(disk0, files, dict)[name], offset, bytes)]
    ensures FileBytes(disk1, files[1]) == FileBytes(disk0, files[1]) && dict[name] != 1 && dict[name] != 0
    ensures Sector0(disk1) == Sector0(disk0) && Grew(tags0, tags1, dict[name], files[dict[name] as nat].secs, secs1)
    ensures SystemKept(tags0, tags1)
    ensures offset + |bytes| <= files[dict[name] as nat].d.length ==>
              tags1 == tags0 && files[dict[name] as nat := FileState(d1, secs1)] == files
  {
    var id: nat := dict[name];
    NamedFacts(dict, files, name);
    WorldWrite(disk0, disk1, tags0, tags1, files, id, d1, secs1, offset, bytes);
    WrittenFacts(disk0, disk1, tags0, tags1, id, files[id].d, d1, files[id].secs, secs1, offset, bytes);
    GrowthKeepsSystem(tags0, tags1, id, files[id].secs, secs1);
    NamedWrite(dict, files, id, FileState(d1, secs1));
    ViewWrite(disk0, disk1, dict, files, name, FileState(d1, secs1));
  }

  // ----- Failed creations -----

  /** With FREE free sectors, inode_create of SIZE bytes succeeds after its sector is allocated. */
  predicate Makes(free: nat, size: int) { size >= 0 && Sectors(size) <= MAX_SECTORS && 1 + Cost(Sectors(size)) <= free }

  /** How many sectors, besides its inode's, it takes whether it succeeds or not. */
  function Taken(free: nat, size: int): nat {
    if free == 0 then 0 else Min(free - 1, Cost(Min(Wanted(size), MAX_SECTORS)))
  }

  /** The file was not made, or it was and dir_add failed without growing the directory. */
  predicate Undoable(free: nat, size: int, slots: seq<Entry>, name: Name) {
    !Makes(free, size) || NoGrowth(slots, name)
  }

  /** A new entry for NAME needs no new slot. */
  predicate NoGrowth(slots: seq<Entry>, name: Name) {
    UnusedFrom(slots, 0) < |slots| || |name| == 0 || |name| > NAME_MAX || name in Dict(slots)
  }

  /** How long the directory is to be for the next new entry. */
  function EntryEnd(slots: seq<Entry>): nat { 36 * (UnusedFrom(slots, 0) + 1) }

  /** How many of FREE sectors a file that has N0 takes when it cannot grow to NUM data sectors. */
  function WriteTaken(free: nat, n0: nat, num: nat): nat { Min(free, Short(n0, Cost(Min(num, MAX_SECTORS)))) }

  /** How many sectors a failed filesys_create loses: those of the new file but its inode's, and those of
      the directory, which has ROOT, when it could not grow. */
  function Wasted(free: nat, size: int, slots: seq<Entry>, name: Name, root: nat): (r: nat)
    ensures r <= free && (free > 0 ==> r <= free - 1)
  {
    Taken(free, size)
    + if Undoable(free, size, slots, name) then 0
      else WriteTaken(free - 1 - Taken(free, size), root, Sectors(EntryEnd(slots)))
  }

  /** Which those are. */
  function WastedFrom(free: seq<nat>, size: int, slots: seq<Entry>, name: Name, root: nat): seq<nat> {
    if free == [] then [] else Part(free, 1, Wasted(|free|, size, slots, name, root))
  }

  /** A failed filesys_create leaves everything in order but for lost sectors: the directory did not have
      to grow, or it has no index blocks. */
  predicate Recoverable(free: nat, size: int, slots: seq<Entry>, name: Name, root: nat) {
    Undoable(free, size, slots, name) || root <= DIRECT
  }

  /** filesys_create runs out of sectors just where an index block is due: one of the new file's, or one
      of the directory's, which has ROOT sectors. */
  ghost predicate CreateOverruns(free: nat, size: int, slots: seq<Entry>, name: Name, root: nat) {
    && free > 0
    && (Overruns(0, free - 1, Wanted(size))
        || (!Undoable(free, size, slots, name)
            && Overruns(root, free - 1 - Cost(Sectors(size)), Sectors(EntryEnd(slots)))))
  }

  lemma TakenIsPart(tags0: seq<Tag>, tags1: seq<Tag>, id: nat, secs: seq<nat>, size: int)
    requires FreeList(tags0) != [] && id == FreeList(tags0)[0] && id < |tags0| && |secs| == Taken(|FreeList(tags0)|, size)
    requires Grew(tags0[id := Own(id, -1)], tags1, id, [], secs)
    ensures secs == Part(FreeList(tags0), 1, |secs|)
    ensures FreeList(tags1) == Part(FreeList(tags0), 1 + |secs|, |FreeList(tags0)| - 1 - |secs|)
  {
    FirstFree(tags0);
    TakeFirstFree(tags0, id, Own(id, -1));
    GrewPrefix(tags0[id := Own(id, -1)], tags1, id, [], secs);
  }

  lemma FitsIsNoOverrun(free: nat, secs: seq<nat>, length: nat, end: nat)
    requires Fits(free, secs, length, end) && |secs| == Cost(Sectors(length)) && Sectors(length) <= MAX_SECTORS
    ensures !Overruns(|secs|, free, Sectors(end))
  {
    if end <= length {
      CostGrows(Sectors(end), Sectors(length));
    }
  }

  /** An inode of a file that is not empty is never a sector of zeros. */
  lemma InodeIsNotZero(d: InodeDisk)
    requires |d.direct| == DIRECT && d.length > 0
    ensures EncodeInode(d) != Zeros()
  {
    InodeRoundTrip(d);
    assert Words(Zeros())[DIRECT + 3] == 0;
  }

  /** The directory could not grow for the file ID just made: what that means for the files. */
  lemma RefusedGrowth(disk0: seq<Block>, disk1: seq<Block>, disk2: seq<Block>, tags0: seq<Tag>, tags1: seq<Tag>, tags2: seq<Tag>,
                      files0: Files, files1: Files, id: nat, secs: seq<nat>, num: nat)
    requires 1 in files0 && 1 in files1 && id !in files0 && id in files1 && files1 == files0[id := files1[id]]
    requires World(disk1, tags1, files1) && Harmless(disk0, disk1, tags0, tags1, files0)
    requires Intruded(disk0, disk1, tags0, tags1, id) && id >= 2
    requires Refused(disk1, disk2, tags1, tags2, 1, files1[1].secs, secs, num)
    ensures var tags3 := LoseFrom(tags2, 1, |files0[1].secs|);
            && Harmless(disk0, disk2, tags0, tags3, files0)
            && (|files0[1].secs| <= DIRECT ==> Intruded(disk0, disk2, tags0, tags3, id))
  {
    RefusalIsHarmless(disk1, disk2, tags1, tags2, files1, 1, secs, num);
    HarmlessMore(disk0, disk1, disk2, tags0, tags1, tags2, files0, files1);
    RefusedFacts(disk1, disk2, tags1, tags2, 1, files1[1].secs, secs, num);
    OwnPositions(disk1, tags1, files1, 1);
    if |files0[1].secs| <= DIRECT {
      WorldZero(disk1, tags1, files1);
      GrowthIntrudes(disk0, disk1, disk2, tags0, tags1, tags2, files1, id, secs);
    }
  }

  lemma GrowthIntrudes(disk0: seq<Block>, disk1: seq<Block>, disk2: seq<Block>, tags0: seq<Tag>, tags1: seq<Tag>, tags2: seq<Tag>,
                       files: Files, id: nat, secs: seq<nat>)
    requires World(disk1, tags1, files) && 0 in files && 1 in files && Intruded(disk0, disk1, tags0, tags1, id)
    requires Grew(tags1, tags2, 1, files[1].secs, secs) && LooseFrame(disk1, disk2, tags2, 1, |files[1].secs|)
    requires Sector0(disk2) == Sector0(disk1) || Sector0(disk2) == Zeros()
    requires |files[1].secs| <= DIRECT && id > 1
    ensures Intruded(disk0, disk2, tags0, LoseFrom(tags2, 1, |files[1].secs|), id)
  {
    WorldFile(disk1, tags1, files, 0);
    OwnPositions(disk1, tags1, files, 1);
    forall t | 0 <= t < |tags0| && t < |disk0| && disk2[t] != disk0[t] && tags0[t].Own?
      ensures tags0[t].id == id || tags0[t].id == 0
    {
      if disk2[t] != disk1[t] {
        IndexIs(tags0[t].pos);
      }
    }
  }

  /** And for the sectors. */
  lemma GrowthLoses(disk1: seq<Block>, disk2: seq<Block>, tags0: seq<Tag>, tags1: seq<Tag>, tags2: seq<Tag>, files: Files, id: nat,
                    made: seq<nat>, secs: seq<nat>, num: nat)
    requires World(disk1, tags1, files) && 1 in files && id != 1
    requires Refused(disk1, disk2, tags1, tags2, 1, files[1].secs, secs, num)
    requires id < |tags1| && tags1[id] == Own(id, -1) && Given(tags0, tags1, id, made, [])
    ensures |files[1].secs| <= |secs|
    ensures var tags3, lost := LoseFrom(tags2, 1, |files[1].secs|), News(files[1].secs, secs);
            && id < |tags3| && tags3[id] == Own(id, -1) && Given(tags0, tags3, id, made, lost)
            && |lost| == WriteTaken(|FreeList(tags1)|, |files[1].secs|, num) && lost == Part(FreeList(tags1), 0, |lost|)
            && |FreeList(tags3)| == |FreeList(tags1)| - |lost|
  {
    RefusedFacts(disk1, disk2, tags1, tags2, 1, files[1].secs, secs, num);
    OwnPositions(disk1, tags1, files, 1);
    GivenStill(tags0, tags1, tags2, id, made, 1, files[1].secs, secs);
    GrewPrefix(tags1, tags2, 1, files[1].secs, secs);
    LoseFromKeepsFree(tags2, 1, |files[1].secs|);
  }

  /** A failed creation undone, seen on the disk. */
  lemma GivenUp(disk0: seq<Block>, disk1: seq<Block>, disk2: seq<Block>, tags0: seq<Tag>, tags1: seq<Tag>, files: Files, id: nat,
                made: seq<nat>, lost: seq<nat>)
    requires World(disk0, tags0, files) && 0 in files && 1 in files && 0 < id < |tags0| && tags0[id] == Free
    requires Intruded(disk0, disk1, tags0, tags1, id) && Given(tags0, tags1, id, made, lost) && id !in made + lost
    requires DataOnly(disk1, disk2, tags1[id := Free], 0)
    requires IsFile(disk2, tags1[id := Free], 0, files[0].d, files[0].secs)
    ensures World(disk2, Lose(tags1[id := Free], id), files)
    ensures Lose(tags1[id := Free], id) == WrittenOff(tags0, made + lost)
    ensures FileBytes(disk2, files[1]) == FileBytes(disk0, files[1])
    ensures 1 < |disk2| && DecodeInode(disk2[1]) == files[1].d
  {
    WorldLose(disk0, disk1, disk2, tags0, tags1, tags1[id := Free], files, id);
    LostAreNews(disk0, disk1, tags0, tags1, files, id, made, lost);
    WorldFile(disk2, Lose(tags1[id := Free], id), files, 1);
    InodeRoundTrip(files[1].d);
  }

  /** What a failed creation wastes: MADE, which the new file was given, and LOST, which the directory took
      of the REST. */
  lemma PartsWasted(free: seq<nat>, size: int, slots: seq<Entry>, name: Name, root: nat, made: seq<nat>, rest: seq<nat>, lost: seq<nat>)
    requires free != [] && |made| == Taken(|free|, size) && made == Part(free, 1, |made|)
    requires rest == Part(free, 1 + |made|, |free| - 1 - |made|)
    requires |lost| == if Undoable(|free|, size, slots, name) then 0 else WriteTaken(|rest|, root, Sectors(EntryEnd(slots)))
    requires lost == Part(rest, 0, |lost|)
    ensures made + lost == WastedFrom(free, size, slots, name, root)
    ensures |rest| - |lost| == |free| - 1 - Wasted(|free|, size, slots, name, root)
  {
    PartsMeet(free, |made|, rest, |lost|);
  }

  /** The parts of the free list taken first and second are one part. */
  lemma PartsMeet(free: seq<nat>, k: nat, rest: seq<nat>, n: nat)
    requires 1 + k <= |free| && rest == Part(free, 1 + k, |free| - 1 - k) && n <= |rest|
    ensures Part(free, 1, k) + Part(rest, 0, n) == Part(free, 1, k + n)
  {
  }

  /** A file that is made does not run out of sectors; after that only the directory can. */
  lemma MakesIsNoOverrun(free: nat, size: int, slots: seq<Entry>, name: Name, root: nat)
    requires free > 0
    ensures Makes(free, size) ==>
              !Overruns(0, free - 1, Wanted(size))
              && (CreateOverruns(free, size, slots, name, root) <==>
                  !NoGrowth(slots, name) && Overruns(root, free - 1 - Cost(Sectors(size)), Sectors(EntryEnd(slots))))
    ensures !Makes(free, size) ==> (CreateOverruns(free, size, slots, name, root) <==> Overruns(0, free - 1, Wanted(size)))
  {
  }

  /** A write to file ID that did not fit. */
  lemma RefusedWrite(disk0: seq<Block>, disk1: seq<Block>, tags0: seq<Tag>, tags1: seq<Tag>, files: Files, id: nat,
                     secs: seq<nat>, num: nat)
    requires World(disk0, tags0, files) && id in files
    requires Refused(disk0, disk1, tags0, tags1, id, files[id].secs, secs, num)
    ensures Harmless(disk0, disk1, tags0, tags1, files) && LostKept(tags0, tags1)
    ensures |FreeList(tags1)| == |FreeList(tags0)| - WriteTaken(|FreeList(tags0)|, |files[id].secs|, num)
    ensures Sector0(disk1) == if Overruns(|files[id].secs|, |FreeList(tags0)|, num) then Zeros() else Sector0(disk0)
  {
    RefusalIsHarmless(disk0, disk1, tags0, tags1, files, id, secs, num);
    RefusedFacts(disk0, disk1, tags0, tags1, id, files[id].secs, secs, num);
  }

  /** The first folder that is not "." or ".." is a plain file of the root directory. */
  ghost predicate ThroughFile(dict: map<Name, Word>, folders: seq<Name>) {
    exists i :: 0 <= i < |folders| && !Dots(folders[i]) && folders[i] in dict && forall j :: 0 <= j < i ==> Dots(folders[j])
  }

  /** dir_open_path has gone through SEEN, all "." or "..", and has LEFT to go. */
  ghost predicate Walked(path: Name, seen: seq<Name>, left: seq<Name>) {
    (Tokens(path) == seen + left && forall k :: 0 <= k < |seen| ==> Dots(seen[k])) == true
  }

  lemma WalkedMore(path: Name, seen: seq<Name>, token: Name, rest: seq<Name>)
    requires Walked(path, seen, [token] + rest) && Dots(token)
    ensures Walked(path, seen + [token], rest)
  {
    TokensMove(seen, token, rest);
  }

  lemma {:induction false} WalkedAll(path: Name, seen: seq<Name>)
    requires Walked(path, seen, [])
    ensures forall f :: f in Tokens(path) ==> f == [DOT] || f == [DOT, DOT]
  {
    assert seen + [] == seen;
  }

  /** It ends at the first folder that is neither. */
  lemma {:induction false} WalkedTo(dict: map<Name, Word>, path: Name, seen: seq<Name>, token: Name, rest: seq<Name>)
    requires Walked(path, seen, [token] + rest) && !Dots(token) && !ThroughFile(dict, Tokens(path))
    ensures token !in dict && !(forall f :: f in Tokens(path) ==> f == [DOT] || f == [DOT, DOT])
  {
    assert Tokens(path)[|seen|] == token;
    assert token in Tokens(path);
  }

  predicate OpenFs(b: bool) { b }

  class FileSystem {
    const vol: Volume
    /** The open inode of the root directory. */
    const root: Inode

    ghost var files: Files
    ghost var slots: seq<Entry>

    constructor (vol: Volume, root: Inode, ghost files: Files, ghost slots: seq<Entry>)
      ensures this.vol == vol && this.root == root && this.files == files && this.slots == slots
    {
      this.vol, this.root := vol, root;
      this.files, this.slots := files, slots;
    }

    /** The open inodes of the free map and of the root directory agree with the disk. */
    ghost predicate Handles()
      reads this, vol, vol.freeMapFile, vol.cache, vol.cache.cache, vol.cache.device, vol.freeMap, vol.freeMap.bits, root
    {
      Attached() && files[1].d == root.data
    }

    /** They are open, and the free map's agrees with the disk. */
    ghost predicate Attached()
      reads this, vol, vol.freeMapFile, vol.cache, vol.cache.cache, vol.cache.device, vol.freeMap, vol.freeMap.bits, root
    {
      && vol.Ok() && vol.freeMapFile != null && vol.freeMapFile != root
      && root.sector == 1 && !root.removed && root.denyWriteCnt == 0
      && 0 in files && files[0] == FileState(vol.freeMapFile.data, vol.fmSecs)
      && 1 in files
    }

    /** Every sector is accounted for and the root directory holds the entries SLOTS. */
    ghost predicate Standing()
      reads this, vol, vol.freeMapFile, vol.cache, vol.cache.cache, vol.cache.device, vol.freeMap, vol.freeMap.bits, root
    {
      1 in files && 0 < |slots| && StandingBody() == true
    }

    ghost predicate StandingBody()
      reads this, vol, vol.freeMapFile, vol.cache, vol.cache.cache, vol.cache.device, vol.freeMap, vol.freeMap.bits, root
    {
      forall b {:trigger OpenFs(b)} :: OpenFs(b) ==>
        && Handles() && Slots(slots)
        && World(vol.disk, vol.tags, files)
        && 1 in files && FileBytes(vol.disk, files[1]) == DirImage(slots)
    }

    /** The invariant between operations. */
    ghost predicate Valid()
      reads this, vol, vol.freeMapFile, vol.cache, vol.cache.cache, vol.cache.device, vol.freeMap, vol.freeMap.bits, root
    {
      Standing() && Named(Dict(slots), files)
    }

    /** The bytes under each name. */
    ghost function View(): map<Name, seq<Byte>>
      reads this, vol
    {
      ViewOf(vol.disk, files, Dict(slots))
    }

    /** What an operation on the root directory needs of Standing(). */
    lemma RootFacts()
      requires Standing()
      ensures Handles() && Slots(slots) && World(vol.disk, vol.tags, files) && FileBytes(vol.disk, files[1]) == DirImage(slots)
      ensures DirAt(vol, root, files[1].secs, slots) && vol.Opened(root, files[1].secs)
    {
      assert OpenFs(true);
      WorldFile(vol.disk, vol.tags, files, 1);
    }

    /** The free map's inode is intact on the disk, so that free_map_open finds it there. */
    ghost predicate Mountable()
      reads this, vol, vol.freeMapFile
    {
      vol.freeMapFile != null && |vol.freeMapFile.data.direct| == DIRECT && Sector0(vol.disk) == EncodeInode(vol.freeMapFile.data)
    }

    /** The bits of the free map are set exactly for the sectors of the files, inode, data and index
        sectors alike, and for the sectors that are lost; no sector belongs to two files. */
    lemma MarkedIsOwned(t: nat)
      requires Valid() && t < |vol.tags|
      ensures vol.freeMap.Valid() && t < |vol.freeMap.Bits()|
      ensures vol.freeMap.Bits()[t] <==> vol.tags[t] == Lost || exists i :: i in files && t in SectorsOf(files, i)
      ensures vol.tags[t] == Lost ==> !exists i :: i in files && t in SectorsOf(files, i)
      ensures NoneLost(vol.tags) ==> MarkedForFile(t)
      ensures forall i, j :: i in files && j in files && t in SectorsOf(files, i) && t in SectorsOf(files, j) ==> i == j
    {
      RootFacts();
      vol.BitsAreTags();
      UsedIsOwned(vol.disk, vol.tags, files, t);
      forall i, j | i in files && j in files && t in SectorsOf(files, i) && t in SectorsOf(files, j)
        ensures i == j
      {
        SectorsDisjoint(vol.disk, vol.tags, files, i, j);
      }
    }

    /** Sector t is marked in the free map exactly when some file has it. */
    ghost predicate MarkedForFile(t: nat)
      reads this, vol, vol.freeMap, vol.freeMap.bits
    {
      && vol.freeMap.Valid() && t < |vol.freeMap.Bits()|
      && (vol.freeMap.Bits()[t] <==> exists i :: i in files && t in SectorsOf(files, i))
    }

    // ----- inode_create in a fresh sector -----

    /** inode_create of a plain file in sector ID, which was just allocated on DISK0 and TAGS0. */
    method MakeInode(id: nat, size: Offset, ghost disk0: seq<Block>, ghost tags0: seq<Tag>) returns (ok: bool, ghost secs: seq<nat>)
      requires Handles() && Slots(slots) && World(disk0, tags0, files) && FileBytes(disk0, files[1]) == DirImage(slots)
      requires FreeList(tags0) != [] && id == FreeList(tags0)[0] && id < |tags0| < |disk0|
      requires vol.tags == tags0[id := Own(id, -1)] && DataOnly(disk0, vol.disk, vol.tags, 0)
      modifies this`files, this`slots, vol`disk, vol`tags, vol.cache, vol.cache.cache, vol.cache.device, vol.freeMap.bits
      ensures ok <==> Makes(|FreeList(tags0)|, size)
      ensures slots == old(slots)
      ensures ok ==> Standing() && Made(disk0, vol.disk, tags0, vol.tags, old(files), files, id, size)
      ensures !ok ==> files == old(files)
      ensures Handles() && Intruded(disk0, vol.disk, tags0, vol.tags, id) && vol.tags[id] == Own(id, -1)
      ensures Grew(tags0[id := Own(id, -1)], vol.tags, id, [], secs) && |secs| == Taken(|FreeList(tags0)|, size)
      ensures Sector0(vol.disk) == if Overruns(0, |FreeList(tags0)| - 1, Wanted(size)) then Zeros() else Sector0(disk0)
    {
      ghost var disk1, tags1 := vol.disk, vol.tags;
      FirstIsPlain(disk0, tags0, files);
      ghost var d;
      ok, d, secs := Inodes.Create(vol, id, size, false);
      vol.MapFileFacts();
      if ok {
        CreateMakes(disk0, disk1, vol.disk, tags0, tags1, vol.tags, files, id, d, secs, size);
        Settle(files[id := FileState(d, secs)], slots);
      } else {
        RefusedFacts(disk1, vol.disk, tags1, vol.tags, id, [], secs, Wanted(size));
        RefusalIntrudes(disk0, disk1, vol.disk, tags0, tags1, vol.tags, id, secs, Wanted(size));
      }
    }

    // ----- dir_add -----

    /** The directory has a free slot, or can grow by one. */
    ghost predicate RoomForEntry()
      requires 1 in files
      reads this, vol
    {
      Fits(|FreeList(vol.tags)|, files[1].secs, files[1].d.length, EntryEnd(slots))
    }

    /** dir_add of a plain file: the directory's map gains the name, or nothing happens. A new
        slot is needed only when all are in use; when there is no room for it, the sectors that the
        directory got stay in its open inode. */
    method AddEntry(name: Name, inodeSector: Word) returns (success: bool, ghost secs: seq<nat>)
      requires Standing() && 0 !in name && SLASH !in name
      modifies this`files, this`slots, vol`disk, vol`tags, vol.cache, vol.cache.cache, vol.cache.device, vol.freeMap.bits, root
      ensures success <==> 0 < |name| <= NAME_MAX && name !in Dict(old(slots)) && old(RoomForEntry())
      ensures success ==> Standing() && Dict(slots) == Dict(old(slots))[name := inodeSector]
      ensures success ==> slots == Put(old(slots), UnusedFrom(old(slots), 0), Entry(inodeSector, name, true))
      ensures success ==> files == old(files)[1 := files[1]] && SameBytes(old(vol.disk), vol.disk, old(files), 1)
      ensures success ==> Sector0(vol.disk) == Sector0(old(vol.disk))
      ensures success ==> Grew(old(vol.tags), vol.tags, 1, old(files)[1].secs, files[1].secs)
      ensures success && UnusedFrom(old(slots), 0) < |old(slots)| ==> vol.tags == old(vol.tags) && files == old(files)
      ensures !success && NoGrowth(old(slots), name) ==> Standing() && vol.disk == old(vol.disk) && vol.tags == old(vol.tags)
      ensures !success ==> Attached() && files == old(files) && slots == old(slots)
      ensures !success && !NoGrowth(old(slots), name) ==>
                Refused(old(vol.disk), vol.disk, old(vol.tags), vol.tags, 1, old(files)[1].secs, secs,
                        Sectors(EntryEnd(old(slots))))
    {
      RootFacts();
      secs := files[1].secs;
      if |name| == 0 || |name| > NAME_MAX {
        return false, secs;
      }
      var found, e, at := Lookup(vol, root, name, files[1].secs, slots);
      if found {
        return false, secs;
      }
      var ofs := FreeSlot(vol, root, files[1].secs, slots);
      AddRefinesMap(slots, name, inodeSector);
      success, secs := WriteEntry(UnusedFrom(slots, 0), ofs, Entry(inodeSector, name, true));
    }

    /** inode_write_at of one entry of the root directory, at slot K. */
    method WriteEntry(ghost k: nat, ofs: nat, e: Entry) returns (success: bool, ghost secs1: seq<nat>)
      requires Standing() && ofs == 36 * k && k <= |slots| && Slots(Put(slots, k, e))
      modifies this`files, this`slots, vol`disk, vol`tags, vol.cache, vol.cache.cache, vol.cache.device, vol.freeMap.bits, root
      ensures success <==> old(Fits(|FreeList(vol.tags)|, files[1].secs, files[1].d.length, 36 * (k + 1)))
      ensures success ==> Standing() && slots == Put(old(slots), k, e)
      ensures success ==> files == old(files)[1 := files[1]] && SameBytes(old(vol.disk), vol.disk, old(files), 1)
      ensures success ==> Sector0(vol.disk) == Sector0(old(vol.disk))
      ensures success ==> Grew(old(vol.tags), vol.tags, 1, old(files)[1].secs, files[1].secs)
      ensures k < |old(slots)| ==> success && vol.tags == old(vol.tags) && files == old(files)
      ensures !success ==> Attached() && files == old(files) && slots == old(slots)
      ensures !success ==>
        Refused(old(vol.disk), vol.disk, old(vol.tags), vol.tags, 1, old(files)[1].secs, secs1, Sectors(36 * (k + 1)))
    {
      RootFacts();
      ghost var disk0, tags0, files0, slots0 := vol.disk, vol.tags, files, slots;
      success, secs1 := StoreEntry(k, ofs, e, files0[1].secs);
      if success {
        vol.MapFileFacts();
        EntryWritten(disk0, vol.disk, tags0, vol.tags, files0, root.data, secs1, slots0, k, e);
        Settle(files0[1 := FileState(root.data, secs1)], Put(slots0, k, e));
      }
    }

    method StoreEntry(ghost k: nat, ofs: nat, e: Entry, ghost secs: seq<nat>) returns (success: bool, ghost secs1: seq<nat>)
      requires vol.Ok() && vol.Opened(root, secs) && root != vol.freeMapFile
      requires root.sector == 1 && !root.removed && root.denyWriteCnt == 0
      requires ofs == 36 * k && ofs <= root.data.length
      modifies vol`disk, vol`tags, vol.cache, vol.cache.cache, vol.cache.device, vol.freeMap.bits, root
      ensures vol.Ok() && !root.removed && root.denyWriteCnt == 0
      ensures success <==> Fits(|FreeList(old(vol.tags))|, secs, old(root.data.length), 36 * (k + 1))
      ensures success ==>
        Written(old(vol.disk), vol.disk, old(vol.tags), vol.tags, 1, old(root.data), root.data, secs, secs1, 36 * k, EncodeEntry(e))
      ensures !success ==> Refused(old(vol.disk), vol.disk, old(vol.tags), vol.tags, 1, secs, secs1, Sectors(36 * (k + 1)))
    {
      var bytes := EncodeEntry(e);
      assert ofs + |bytes| == 36 * (k + 1);
      var written;
      written, secs1 := vol.WriteAt(root, bytes, ofs, secs);
      success := written == ENTRY_SIZE;
    }

    /** Takes note of the files and entries that an operation leaves. */
    ghost method Settle(files1: Files, slots1: seq<Entry>)
      requires vol.Ok() && vol.freeMapFile != null && vol.freeMapFile != root
      requires root.sector == 1 && !root.removed && root.denyWriteCnt == 0
      requires 0 in files1 && files1[0] == FileState(vol.freeMapFile.data, vol.fmSecs)
      requires 1 in files1 && files1[1].d == root.data
      requires World(vol.disk, vol.tags, files1)
      requires Slots(slots1) && FileBytes(vol.disk, files1[1]) == DirImage(slots1)
      modifies this`files, this`slots
      ensures Standing() && slots == slots1 && files == files1
    {
      files := files1;
      slots := slots1;
    }

    // ----- filesys_create -----

    /** There is room for a file of SIZE bytes: its inode, its sectors, and its directory entry. */
    ghost predicate RoomFor(size: int)
      requires 1 in files
      reads this, vol
    {
      && Makes(|FreeList(vol.tags)|, size)
      && Fits(|FreeList(vol.tags)| - 1 - Cost(Sectors(size)), files[1].secs, files[1].d.length, EntryEnd(slots))
    }

    /** After a failed creation in sector ID since DISK0 and TAGS0: the new file has MADE, and LOST is lost.
        When that is RECOVERABLE, only sectors of no other file were written. */
    ghost predicate Aborted(id: nat, disk0: seq<Block>, tags0: seq<Tag>, made: seq<nat>, lost: seq<nat>, recoverable: bool)
      reads this, vol, vol.freeMapFile, vol.cache, vol.cache.cache, vol.cache.device, vol.freeMap, vol.freeMap.bits, root
    {
      AbortedBody(id, disk0, tags0, made, lost, recoverable) == true
    }

    ghost predicate AbortedBody(id: nat, disk0: seq<Block>, tags0: seq<Tag>, made: seq<nat>, lost: seq<nat>, recoverable: bool)
      reads this, vol, vol.freeMapFile, vol.cache, vol.cache.cache, vol.cache.device, vol.freeMap, vol.freeMap.bits, root
    {
      && Attached() && id < |vol.tags| && vol.tags[id] == Own(id, -1)
      && Harmless(disk0, vol.disk, tags0, vol.tags, files) && Given(tags0, vol.tags, id, made, lost)
      && (recoverable ==> Intruded(disk0, vol.disk, tags0, vol.tags, id))
    }

    /** inode_create and dir_add in the sector ID just allocated on DISK0 and TAGS0. When they fail, the
        new file has MADE and the directory, which could not grow, gave up LOST. */
    method Fill(id: nat, size: Offset, name: Name, ghost disk0: seq<Block>, ghost tags0: seq<Tag>)
      returns (success: bool, ghost made: seq<nat>, ghost lost: seq<nat>)
      requires Handles() && Slots(slots) && World(disk0, tags0, files) && FileBytes(disk0, files[1]) == DirImage(slots)
      requires FreeList(tags0) != [] && id == FreeList(tags0)[0] && id < |tags0| < |disk0| && tags0[id] == Free
      requires vol.tags == tags0[id := Own(id, -1)] && DataOnly(disk0, vol.disk, vol.tags, 0)
      requires Named(Dict(slots), files) && 0 !in name && SLASH !in name
      modifies this`files, this`slots, vol`disk, vol`tags, vol.cache, vol.cache.cache, vol.cache.device, vol.freeMap.bits, root
      ensures success <==> Makes(|FreeList(tags0)|, size) && 0 < |name| <= NAME_MAX && name !in Dict(old(slots))
                           && Fits(|FreeList(tags0)| - 1 - Cost(Sectors(size)), old(files)[1].secs, old(files)[1].d.length,
                                   EntryEnd(old(slots)))
      ensures success ==> Valid()
      ensures success ==> Created(disk0, vol.disk, tags0, vol.tags, old(files), files, old(slots), slots, id, size, name)
      ensures !success ==> files == old(files) && slots == old(slots) && 1 in files && id !in made
      ensures !success ==> Aborted(id, disk0, tags0, made, lost, Recoverable(|FreeList(tags0)|, size, slots, name, |files[1].secs|))
      ensures !success ==> made + lost == WastedFrom(FreeList(tags0), size, slots, name, |files[1].secs|)
      ensures !success ==> |FreeList(vol.tags)| == |FreeList(tags0)| - 1 - Wasted(|FreeList(tags0)|, size, slots, name, |files[1].secs|)
      ensures Sector0(vol.disk) == if CreateOverruns(|FreeList(tags0)|, size, old(slots), name, |old(files)[1].secs|) then Zeros()
                                   else Sector0(disk0)
    {
      ghost var files0, slots0 := files, slots;
      var ok;
      ok, made := MakeInode(id, size, disk0, tags0);
      lost := [];
      IntrusionIsHarmless(disk0, vol.disk, tags0, vol.tags, files0, id);
      NewsAreGiven(disk0, tags0, vol.tags, files0, id, made);
      TakenIsPart(tags0, vol.tags, id, made, size);
      MakesIsNoOverrun(|FreeList(tags0)|, size, slots0, name, |files0[1].secs|);
      ghost var rest := FreeList(vol.tags);
      success := false;
      if ok {
        MadeCount(disk0, vol.disk, tags0, vol.tags, files0, files, id, size);
        success, lost := NameInode(id, size, name, disk0, tags0, files0, made);
      } else {
        assert AbortedBody(id, disk0, tags0, made, lost, true);
      }
      if !success {
        PartsWasted(FreeList(tags0), size, slots0, name, |files0[1].secs|, made, rest, lost);
      }
    }

    /** dir_add of the file just made since DISK0, TAGS0 and FILES0, which has MADE. */
    method NameInode(id: nat, ghost size: nat, name: Name, ghost disk0: seq<Block>, ghost tags0: seq<Tag>, ghost files0: Files,
                     ghost made: seq<nat>)
      returns (success: bool, ghost lost: seq<nat>)
      requires Standing() && Made(disk0, vol.disk, tags0, vol.tags, files0, files, id, size) && 2 <= id < |tags0| == |vol.tags|
      requires Named(Dict(slots), files0) && 0 !in name && SLASH !in name && vol.tags[id] == Own(id, -1) && 0 in files0 && 1 in files0
      requires Harmless(disk0, vol.disk, tags0, vol.tags, files0) && Given(tags0, vol.tags, id, made, [])
      requires Intruded(disk0, vol.disk, tags0, vol.tags, id)
      modifies this`files, this`slots, vol`disk, vol`tags, vol.cache, vol.cache.cache, vol.cache.device, vol.freeMap.bits, root
      ensures success <==> 0 < |name| <= NAME_MAX && name !in Dict(old(slots)) && old(RoomForEntry())
      ensures success ==> Valid()
      ensures success ==> Created(disk0, vol.disk, tags0, vol.tags, files0, files, old(slots), slots, id, size, name)
      ensures !success ==> files == files0 && slots == old(slots)
      ensures !success ==> Aborted(id, disk0, tags0, made, lost, NoGrowth(slots, name) || |files[1].secs| <= DIRECT)
      ensures !success ==>
                |lost| == (if NoGrowth(slots, name) then 0
                           else WriteTaken(|FreeList(old(vol.tags))|, |files[1].secs|, Sectors(EntryEnd(slots))))
                && lost == Part(FreeList(old(vol.tags)), 0, |lost|) && |FreeList(vol.tags)| == |FreeList(old(vol.tags))| - |lost|
      ensures Sector0(vol.disk) == if !NoGrowth(old(slots), name) && old(EntryOverruns()) then Zeros() else Sector0(old(vol.disk))
    {
      ghost var disk1, tags1, files1, slots0 := vol.disk, vol.tags, files, slots;
      MadeCount(disk0, disk1, tags0, tags1, files0, files1, id, size);
      RootFacts();
      RoomIsNoOverrun();
      ghost var secs;
      success, secs := AddEntry(name, id);
      lost := [];
      if success {
        NewName(disk0, disk1, vol.disk, tags0, tags1, vol.tags, files0, files1, files, slots0, slots, id, size, name);
      } else {
        lost := DropName(id, name, disk0, disk1, tags0, tags1, files0, made, secs);
      }
    }

    /** The new name could not be added since DISK1 and TAGS1: the file ID is no file any more. */
    ghost method DropName(id: nat, name: Name, disk0: seq<Block>, disk1: seq<Block>, tags0: seq<Tag>, tags1: seq<Tag>, files0: Files,
                          made: seq<nat>, secs: seq<nat>)
      returns (lost: seq<nat>)
      requires Attached() && 0 in files0 && 1 in files0 && 2 <= id < |tags1| && id !in files0 && id in files
      requires files == files0[id := files[id]]
      requires World(disk1, tags1, files) && Harmless(disk0, disk1, tags0, tags1, files0)
      requires Intruded(disk0, disk1, tags0, tags1, id) && Given(tags0, tags1, id, made, []) && tags1[id] == Own(id, -1)
      requires if NoGrowth(slots, name) then vol.disk == disk1 && vol.tags == tags1
               else Refused(disk1, vol.disk, tags1, vol.tags, 1, files[1].secs, secs, Sectors(EntryEnd(slots)))
      modifies this`files, vol`tags
      ensures files == files0
      ensures Aborted(id, disk0, tags0, made, lost, NoGrowth(slots, name) || |files[1].secs| <= DIRECT)
      ensures |lost| == (if NoGrowth(slots, name) then 0 else WriteTaken(|FreeList(tags1)|, |files[1].secs|, Sectors(EntryEnd(slots))))
      ensures lost == Part(FreeList(tags1), 0, |lost|) && |FreeList(vol.tags)| == |FreeList(tags1)| - |lost|
      ensures Sector0(vol.disk) == if !NoGrowth(slots, name) && Overruns(|files[1].secs|, |FreeList(tags1)|, Sectors(EntryEnd(slots)))
                                   then Zeros() else Sector0(disk1)
    {
      lost := [];
      if !NoGrowth(slots, name) {
        lost := DropGrowth(id, disk0, disk1, tags0, tags1, files0, made, secs);
      }
      files := files0;
      assert AbortedBody(id, disk0, tags0, made, lost, NoGrowth(slots, name) || |files[1].secs| <= DIRECT);
    }

    /** The sectors that the directory got since DISK1 and TAGS1, when it could not grow for the file ID,
        are written off. */
    ghost method DropGrowth(id: nat, disk0: seq<Block>, disk1: seq<Block>, tags0: seq<Tag>, tags1: seq<Tag>, files0: Files,
                            made: seq<nat>, secs: seq<nat>)
      returns (lost: seq<nat>)
      requires vol.Ok() && 1 in files0 && 1 in files && id !in files0 && id in files && files == files0[id := files[id]]
      requires World(disk1, tags1, files) && Harmless(disk0, disk1, tags0, tags1, files0)
      requires Intruded(disk0, disk1, tags0, tags1, id) && Given(tags0, tags1, id, made, [])
      requires Refused(disk1, vol.disk, tags1, vol.tags, 1, files[1].secs, secs, Sectors(EntryEnd(slots)))
      requires 2 <= id < |tags1| && tags1[id] == Own(id, -1)
      modifies vol`tags
      ensures vol.Ok() && id < |vol.tags| && vol.tags[id] == Own(id, -1)
      ensures Harmless(disk0, vol.disk, tags0, vol.tags, files0) && Given(tags0, vol.tags, id, made, lost)
      ensures |lost| == WriteTaken(|FreeList(tags1)|, |files[1].secs|, Sectors(EntryEnd(slots)))
      ensures lost == Part(FreeList(tags1), 0, |lost|) && |FreeList(vol.tags)| == |FreeList(tags1)| - |lost|
      ensures |files[1].secs| <= DIRECT ==> Intruded(disk0, vol.disk, tags0, vol.tags, id)
      ensures Sector0(vol.disk) == if Overruns(|files[1].secs|, |FreeList(tags1)|, Sectors(EntryEnd(slots))) then Zeros()
                                   else Sector0(disk1)
    {
      ghost var num := Sectors(EntryEnd(slots));
      RefusedFacts(disk1, vol.disk, tags1, vol.tags, 1, files[1].secs, secs, num);
      RefusedGrowth(disk0, disk1, vol.disk, tags0, tags1, vol.tags, files0, files, id, secs, num);
      GrowthLoses(disk1, vol.disk, tags0, tags1, vol.tags, files, id, made, secs, num);
      lost := News(files[1].secs, secs);
      vol.AbandonFrom(1, |files[1].secs|);
    }

    ghost predicate EntryOverruns()
      requires 1 in files
      reads this, vol
    {
      Overruns(|files[1].secs|, |FreeList(vol.tags)|, Sectors(EntryEnd(slots)))
    }

    lemma RoomIsNoOverrun()
      requires Standing()
      ensures RoomForEntry() ==> !EntryOverruns()
    {
      FileFacts(1);
      if RoomForEntry() {
        FitsIsNoOverrun(|FreeList(vol.tags)|, files[1].secs, files[1].d.length, EntryEnd(slots));
      }
    }

    /** The end of filesys_create when it failed after allocating sector ID: free_map_release of the
        inode's sector alone, and dir_close. What else the file was given, MADE, is lost, as LOST is
        already. When the rest of the file system is as it was on DISK0 and TAGS0 (RECOVERABLE), every
        invariant holds again. */
    method GiveUp(id: nat, ghost disk0: seq<Block>, ghost tags0: seq<Tag>, ghost made: seq<nat>, ghost lost: seq<nat>,
                  ghost recoverable: bool)
      requires Aborted(id, disk0, tags0, made, lost, recoverable) && 2 <= id < |tags0| && tags0[id] == Free && id !in made
      requires World(disk0, tags0, files)
      requires recoverable ==>
                 Slots(slots) && Named(Dict(slots), files) && 1 in files && FileBytes(disk0, files[1]) == DirImage(slots)
      modifies vol`disk, vol`tags, vol.cache, vol.cache.cache, vol.cache.device, vol.freeMap.bits, root
      ensures vol.Ok() && |FreeList(vol.tags)| == |FreeList(old(vol.tags))| + 1 && Sector0(vol.disk) == Sector0(old(vol.disk))
      ensures Harmless(disk0, vol.disk, tags0, vol.tags, files) && LostToo(tags0, vol.tags, made + lost)
      ensures recoverable ==> Valid() && vol.tags == WrittenOff(tags0, made + lost)
    {
      ghost var disk1, tags1 := vol.disk, vol.tags;
      FreeInode(id);
      GivingUpIsHarmless(disk0, disk1, vol.disk, tags0, tags1, files, id);
      LostIsNotOwned(tags0, tags1, id, made, lost);
      GivenIsLost(tags0, tags1, id, made, lost);
      if recoverable {
        GivenUp(disk0, disk1, vol.disk, tags0, tags1, files, id, made, lost);
      }
      CloseRoot();
    }

    /** free_map_release of the inode in sector ID, whose other sectors are written off. */
    method FreeInode(id: nat)
      requires Attached() && 2 <= id < |vol.tags| && vol.tags[id] == Own(id, -1)
      modifies vol`disk, vol`tags, vol.cache, vol.cache.cache, vol.cache.device, vol.freeMap.bits
      ensures Attached() && vol.tags == Lose(old(vol.tags)[id := Free], id)
      ensures DataOnly(old(vol.disk), vol.disk, old(vol.tags)[id := Free], 0) && Sector0(vol.disk) == Sector0(old(vol.disk))
      ensures |FreeList(vol.tags)| == |FreeList(old(vol.tags))| + 1
      ensures IsFile(vol.disk, old(vol.tags)[id := Free], 0, files[0].d, files[0].secs)
    {
      ghost var tags1 := vol.tags;
      vol.MapFileFacts();
      Inodes.Release(vol, id);
      ReleaseOne(tags1, id, 0);
      LoseKeepsFree(vol.tags, id);
      vol.MapFileFacts();
      vol.Abandon(id);
    }

    /** dir_close, and dir_open_root when the directory is needed again: its inode is read anew. */
    method CloseRoot()
      requires vol.Ok() && root.sector == 1
      modifies root`data, vol.cache, vol.cache.cache, vol.cache.device
      ensures vol.Ok() && 1 < |vol.disk| && root.data == DecodeInode(vol.disk[1])
    {
      vol.MapFileFacts();
      assert OpenMap(true);
      var b := vol.ReadSector(1);
      root.data := DecodeInode(b);
    }

    /** With files and names unchanged, the bytes are those of DISK0. */
    lemma HarmlessView(disk0: seq<Block>, tags0: seq<Tag>)
      requires Named(Dict(slots), files) && Harmless(disk0, vol.disk, tags0, vol.tags, files) && 1 in files
      ensures View() == ViewOf(disk0, files, Dict(slots)) && FileBytes(vol.disk, files[1]) == FileBytes(disk0, files[1])
    {
      assert Open(true);
    }

    /** filesys_create of a plain file of SIZE bytes in the root directory, under the last name
        of PATH, whatever comes before it. It succeeds exactly when the name is new and valid, the size
        is not negative and there is room; the new file then reads as zeros and no other
        file changes. A failed creation changes no byte of any file either, but loses exactly the
        sectors that the file got besides its inode's. The free map's inode is zeroed exactly when
        the sectors run out at an index block. */
    method Create(path: Name, size: Offset) returns (success: bool, ghost id: nat)
      requires Valid() && 0 !in path
      modifies this`files, this`slots, vol`disk, vol`tags, vol.cache, vol.cache.cache, vol.cache.device, vol.freeMap.bits, root
      ensures success <==> 0 < |LastName(path)| <= NAME_MAX && LastName(path) !in Dict(old(slots)) && old(RoomFor(size))
      ensures success ==> Valid() && View() == old(View())[LastName(path) := seq(size, _ => 0)]
      ensures success ==> Created(old(vol.disk), vol.disk, old(vol.tags), vol.tags, old(files), files, old(slots), slots, id, size, LastName(path))
      ensures !success ==> vol.Ok() && View() == old(View()) && files == old(files) && slots == old(slots)
                           && FileBytes(vol.disk, files[1]) == DirImage(slots)
      ensures !success ==>
                var free, root := FreeList(old(vol.tags)), |files[1].secs|;
                && LostToo(old(vol.tags), vol.tags, WastedFrom(free, size, slots, LastName(path), root))
                && |FreeList(vol.tags)| == |free| - Wasted(|free|, size, slots, LastName(path), root)
                && (Recoverable(|free|, size, slots, LastName(path), root) ==>
                      Valid() && vol.tags == WrittenOff(old(vol.tags), WastedFrom(free, size, slots, LastName(path), root)))
      ensures Sector0(vol.disk) == if old(Overrunning(LastName(path), size)) then Zeros() else Sector0(old(vol.disk))
      ensures Mountable() <==> old(Mountable()) && !old(Overrunning(LastName(path), size))
    {
      var directory, name := SplitPath(path);
      LastIsName(path);
      RootFacts();
      ghost var disk0, tags0, over := vol.disk, vol.tags, Overrunning(LastName(path), size);
      MapInodeIsNotZero();
      id := if FreeList(tags0) != [] then FreeList(tags0)[0] else 1;
      FirstSector();
      var ok, inodeSector := vol.Allocate(id, -1);
      success := false;
      if ok {
        success := CreateIn(inodeSector, size, name, disk0, tags0);
      } else {
        assert WrittenOff(tags0, []) == tags0;
      }
      StillMountable(disk0, over);
    }

    /** filesys_create from its first allocation on, of sector ID on DISK0 and TAGS0. */
    method CreateIn(id: nat, size: Offset, name: Name, ghost disk0: seq<Block>, ghost tags0: seq<Tag>) returns (success: bool)
      requires Handles() && Slots(slots) && World(disk0, tags0, files) && FileBytes(disk0, files[1]) == DirImage(slots)
      requires FreeList(tags0) != [] && id == FreeList(tags0)[0] && 2 <= id < |tags0| < |disk0| && tags0[id] == Free
      requires vol.tags == tags0[id := Own(id, -1)] && DataOnly(disk0, vol.disk, vol.tags, 0)
      requires Named(Dict(slots), files) && 0 !in name && SLASH !in name
      modifies this`files, this`slots, vol`disk, vol`tags, vol.cache, vol.cache.cache, vol.cache.device, vol.freeMap.bits, root
      ensures success <==> Makes(|FreeList(tags0)|, size) && 0 < |name| <= NAME_MAX && name !in Dict(old(slots))
                           && Fits(|FreeList(tags0)| - 1 - Cost(Sectors(size)), old(files)[1].secs, old(files)[1].d.length,
                                   EntryEnd(old(slots)))
      ensures success ==> Valid()
      ensures success ==> Created(disk0, vol.disk, tags0, vol.tags, old(files), files, old(slots), slots, id, size, name)
      ensures !success ==> vol.Ok() && files == old(files) && slots == old(slots) && View() == ViewOf(disk0, files, Dict(slots))
                           && FileBytes(vol.disk, files[1]) == DirImage(slots)
      ensures !success ==>
                var free, root := FreeList(tags0), |files[1].secs|;
                && LostToo(tags0, vol.tags, WastedFrom(free, size, slots, name, root))
                && |FreeList(vol.tags)| == |free| - Wasted(|free|, size, slots, name, root)
                && (Recoverable(|free|, size, slots, name, root) ==>
                      Valid() && vol.tags == WrittenOff(tags0, WastedFrom(free, size, slots, name, root)))
      ensures Sector0(vol.disk) == if CreateOverruns(|FreeList(tags0)|, size, old(slots), name, |old(files)[1].secs|) then Zeros()
                                   else Sector0(disk0)
    {
      ghost var made, lost;
      success, made, lost := Fill(id, size, name, disk0, tags0);
      if !success {
        GiveUp(id, disk0, tags0, made, lost, Recoverable(|FreeList(tags0)|, size, slots, name, |files[1].secs|));
        HarmlessView(disk0, tags0);
      }
    }

    /** The free map's inode is not a sector of zeros, so that zeroing it destroys it. */
    lemma MapInodeIsNotZero()
      requires Standing()
      ensures vol.freeMapFile != null && |vol.freeMapFile.data.direct| == DIRECT
      ensures EncodeInode(vol.freeMapFile.data) != Zeros()
    {
      RootFacts();
      vol.MapFileFacts();
      WorldFile(vol.disk, vol.tags, files, 0);
      InodeIsNotZero(vol.freeMapFile.data);
    }

    /** filesys_create of this file would zero the free map's inode. */
    ghost predicate Overrunning(name: Name, size: int)
      requires 1 in files
      reads this, vol
    {
      CreateOverruns(|FreeList(vol.tags)|, size, slots, name, |files[1].secs|)
    }

    lemma FirstSector()
      requires Standing()
      ensures FreeList(vol.tags) != [] ==>
                && 2 <= FreeList(vol.tags)[0] < |vol.tags| < |vol.disk| && vol.tags[FreeList(vol.tags)[0]] == Free
                && |FreeList(vol.tags[FreeList(vol.tags)[0] := Own(FreeList(vol.tags)[0], -1)])| == |FreeList(vol.tags)| - 1
    {
      RootFacts();
      WorldFile(vol.disk, vol.tags, files, 0);
      if FreeList(vol.tags) != [] {
        FirstIsPlain(vol.disk, vol.tags, files);
      }
    }

    // ----- filesys_remove -----

    /** What an inode opened on file ID holds. */
    lemma FileFacts(id: nat)
      requires Standing() && id in files
      ensures id < |vol.tags| < |vol.disk| && vol.tags[id] == Own(id, -1) && |files[id].d.direct| == DIRECT
      ensures id != 0 ==> DecodeInode(vol.disk[id]) == files[id].d
      ensures IsFile(vol.disk, vol.tags, id, files[id].d, files[id].secs)
    {
      RootFacts();
      WorldFile(vol.disk, vol.tags, files, id);
      InodeRoundTrip(files[id].d);
    }

    /** The names of the view are those of the directory, and a file occupies the sectors that its
        length needs. */
    lemma NameFacts(name: Name)
      requires Valid()
      ensures name in View() <==> name in Dict(slots)
      ensures name in Dict(slots) ==> 0 !in name && SLASH !in name && LastName(name) == name && Folders(name) == []
      ensures name in Dict(slots) ==>
                && 2 <= Dict(slots)[name] && Dict(slots)[name] as nat in files && Sectors(|View()[name]|) <= MAX_SECTORS
                && |files[Dict(slots)[name] as nat].secs| == Cost(Sectors(|View()[name]|))
                && Dict(slots)[name] < |vol.tags| && vol.tags[Dict(slots)[name]] == Own(Dict(slots)[name], -1)
    {
      if name in Dict(slots) {
        NamedFacts(Dict(slots), files, name);
        FileFacts(Dict(slots)[name]);
        RootFacts();
        FindIsLookup(slots, name, 1);
        NameIsToken(name);
      }
    }

    /** Without names, only the free map and the root directory own sectors. */
    lemma NoFilesLeft(m: nat)
      requires Valid() && Dict(slots) == map[]
      ensures forall id :: id in files ==> id < 2
      ensures SystemPrefix(vol.tags, m) <==> PrefixUsed(vol.tags, m)
      ensures PlainSectors(vol.tags) == FreeList(vol.tags)
    {
      assert Open(true);
      RootFacts();
      forall t | 0 <= t < |vol.tags| && vol.tags[t].Own?
        ensures vol.tags[t].id < 2
      {
        assert InPlace(vol.tags[t], t, files);
      }
      PlainAreFree(vol.tags);
    }

    /** inode_close of the removed file under NAME, whose entry is already cleared. */
    method CloseRemoved(inode: Inode, ghost dict0: map<Name, Word>, ghost name: Name)
      requires Standing() && Named(dict0, files) && name in dict0 && Dict(slots) == dict0 - {name}
      requires inode.sector == dict0[name] as nat && inode.removed && inode != root && inode != vol.freeMapFile
      requires inode.sector in files && inode.data == files[inode.sector].d
      modifies this`files, this`slots, vol`disk, vol`tags, vol.cache, vol.cache.cache, vol.cache.device, vol.freeMap.bits
      ensures Valid() && View() == ViewOf(old(vol.disk), old(files), dict0) - {name}
      ensures files == old(files) - {dict0[name] as nat} && slots == old(slots)
      ensures Sector0(vol.disk) == Sector0(old(vol.disk)) && SystemKept(old(vol.tags), vol.tags)
      ensures dict0[name] as nat in old(files)
              && Inodes.Freed(old(vol.tags), vol.tags, dict0[name], old(files)[dict0[name] as nat].secs)
    {
      ghost var disk0, tags0, files0, id := vol.disk, vol.tags, files, inode.sector;
      RootFacts();
      FileFacts(id);
      NamedFacts(dict0, files, name);
      Inodes.Close(vol, inode, files[id].secs);
      vol.MapFileFacts();
      NameRemoved(disk0, vol.disk, tags0, vol.tags, files0, dict0, name);
      Settle(files0 - {id}, slots);
    }

    /** dir_remove of a plain file from the root directory: the name is gone, its sectors are free again,
        and nothing else changes. */
    method RemoveEntry(name: Name) returns (success: bool)
      requires Valid()
      modifies this`files, this`slots, vol`disk, vol`tags, vol.cache, vol.cache.cache, vol.cache.device, vol.freeMap.bits, root
      ensures Valid() && (success <==> name in Dict(old(slots)))
      ensures Sector0(vol.disk) == Sector0(old(vol.disk)) && SystemKept(old(vol.tags), vol.tags)
      ensures !success ==> View() == old(View()) && vol.tags == old(vol.tags) && files == old(files) && slots == old(slots)
      ensures success ==> View() == old(View()) - {name} && RemovedName(name, old(slots), old(files), old(vol.tags))
    {
      RootFacts();
      ghost var dict0 := Dict(slots);
      var found, e, ofs := Lookup(vol, root, name, files[1].secs, slots);
      success := found;
      if found {
        NamedFacts(dict0, files, name);
        FileFacts(e.sector);
        var inode := Inodes.OpenInode(vol, e.sector);
        EraseEntry(name, e, ofs);
        inode.removed := true;
        CloseRemoved(inode, dict0, name);
      }
    }

    /** dir_open_path of a path that leads through no plain file: it ends at the root directory when every
        folder is "." or "..", and otherwise a folder on it is missing. */
    method OpenPath(path: Name) returns (found: bool)
      requires Valid() && !ThroughFile(Dict(slots), Tokens(path))
      modifies vol.cache, vol.cache.cache, vol.cache.device
      ensures Valid() && (found <==> forall f :: f in Tokens(path) ==> f == [DOT] || f == [DOT, DOT])
    {
      ghost var dict, seen: seq<Name> := Dict(slots), [];
      var more, token, rest := NextToken(path);
      assert [] + Tokens(path) == Tokens(path);
      while more
        invariant Valid() && Dict(slots) == dict
        invariant Walked(path, seen, if more then [token] + Tokens(rest) else [])
        decreases |rest|, more
      {
        if !Dots(token) {
          WalkedTo(dict, path, seen, token, Tokens(rest));
          RootFacts();
          var e, ofs;
          found, e, ofs := Lookup(vol, root, token, files[1].secs, slots);
          return;
        }
        var dir := OpenDots(token == [DOT]);
        WalkedMore(path, seen, token, Tokens(rest));
        seen := seen + [token];
        more, token, rest := NextToken(rest);
      }
      found := true;
      WalkedAll(path, seen);
    }

    /** filesys_remove of a plain file: its folders are looked up first, and must be "." or "..". */
    method Remove(path: Name) returns (success: bool)
      requires Valid() && !ThroughFile(Dict(slots), Folders(path))
      modifies this`files, this`slots, vol`disk, vol`tags, vol.cache, vol.cache.cache, vol.cache.device, vol.freeMap.bits, root
      ensures Valid()
      ensures success <==>
                LastName(path) in Dict(old(slots)) && forall f :: f in Folders(path) ==> f == [DOT] || f == [DOT, DOT]
      ensures Sector0(vol.disk) == Sector0(old(vol.disk)) && SystemKept(old(vol.tags), vol.tags)
      ensures !success ==> View() == old(View()) && vol.tags == old(vol.tags) && files == old(files) && slots == old(slots)
      ensures success ==> View() == old(View()) - {LastName(path)}
                          && RemovedName(LastName(path), old(slots), old(files), old(vol.tags))
    {
      var directory, name := SplitPath(path);
      success := OpenPath(directory);
      if success {
        success := RemoveEntry(name);
      }
    }

    /** The entry of NAME, found at OFS, written back as unused. */
    method EraseEntry(ghost name: Name, e: Entry, ofs: nat)
      requires Valid() && name in Dict(slots) && Find(slots, name) < |slots| && ofs == 36 * Find(slots, name)
               && e == slots[Find(slots, name)]
      modifies this`files, this`slots, vol`disk, vol`tags, vol.cache, vol.cache.cache, vol.cache.device, vol.freeMap.bits, root
      ensures Standing() && slots == old(slots)[Find(old(slots), name) := e.(inUse := false)]
      ensures Dict(slots) == Dict(old(slots)) - {name} && files == old(files) && vol.tags == old(vol.tags)
      ensures ViewOf(vol.disk, files, Dict(old(slots))) == old(View()) && Sector0(vol.disk) == Sector0(old(vol.disk))
    {
      ghost var disk0, files0, dict0 := vol.disk, files, Dict(slots);
      RootFacts();
      RemoveRefinesMap(slots, name);
      var erased;
      ghost var secs;
      erased, secs := WriteEntry(Find(slots, name), ofs, e.(inUse := false));
      ViewKept(disk0, vol.disk, dict0, files0, files, 1);
    }

    /** The entry and the file under NAME, and nothing else, went since SLOTS0, FILES0 and TAGS0. */
    ghost predicate RemovedName(name: Name, slots0: seq<Entry>, files0: Files, tags0: seq<Tag>)
      reads this, vol
    {
      && name in Dict(slots0) && Find(slots0, name) < |slots0|
      && slots == slots0[Find(slots0, name) := slots0[Find(slots0, name)].(inUse := false)]
      && Dict(slots) == Dict(slots0) - {name}
      && var id: nat := Dict(slots0)[name];
         && id in files0 && files == files0 - {id}
         && Inodes.Freed(tags0, vol.tags, id, files0[id].secs)
    }

    // ----- filesys_done -----

    /** filesys_done: afterwards the device alone holds every file's bytes under its name. */
    method Done()
      requires Valid()
      modifies vol.cache, vol.cache.cache, vol.cache.device
      ensures Valid() && vol.cache.device[..] == vol.disk
      ensures ViewOf(vol.cache.device[..], files, Dict(slots)) == old(View())
    {
      RootFacts();
      vol.CloseCache();
    }

    // ----- Open files -----

    /** INODE is the open inode of the file under NAME. */
    ghost predicate OpenOn(inode: Inode, name: Name)
      reads this, vol, inode
    {
      && name in Dict(slots) && inode.sector == Dict(slots)[name] as nat && inode.sector in files
      && inode.data == files[inode.sector].d && !inode.removed && inode.denyWriteCnt == 0
      && inode != root && inode != vol.freeMapFile
    }

    /** filesys_open of the last name of PATH, whatever comes before it. "." and ".." are the root
        directory, whatever files of these names there are, and so is a path of slashes. */
    method OpenName(path: Name) returns (inode: Inode?)
      requires Valid()
      modifies vol.cache, vol.cache.cache, vol.cache.device
      ensures Valid()
      ensures path == [] ==> inode == null
      ensures path != [] && (LastName(path) == [] || LastName(path) == [DOT] || LastName(path) == [DOT, DOT]) ==> inode == root
      ensures LastName(path) != [] && !Dots(LastName(path)) ==> (inode != null <==> LastName(path) in Dict(slots))
      ensures LastName(path) != [] && !Dots(LastName(path)) && inode != null ==> fresh(inode) && OpenOn(inode, LastName(path))
    {
      inode := null;
      if |path| == 0 {
        return;
      }
      var directory, name := SplitPath(path);
      if |name| == 0 {
        return root;
      }
      if Dots(name) {
        inode := OpenDots(name == [DOT]);
        return;
      }
      RootFacts();
      var found, e, ofs := Lookup(vol, root, name, files[1].secs, slots);
      if found {
        NamedFacts(Dict(slots), files, name);
        FileFacts(e.sector);
        inode := Inodes.OpenInode(vol, e.sector);
      }
    }

    /** dir_lookup of "." and "..": the directory itself, or the inode that its first entry names. That
        is the root directory again, which inode_open finds among the open inodes. */
    method OpenDots(self: bool) returns (inode: Inode)
      requires Valid()
      modifies vol.cache, vol.cache.cache, vol.cache.device
      ensures Valid() && inode == root
    {
      if self {
        return root;
      }
      RootFacts();
      var ok, e := ReadEntry(vol, root, 0, 0, files[1].secs, slots);
      if e.sector as nat == root.sector {
        inode := root;
      } else {
        assert false;
      }
    }

    /** inode_read_at on an open file: the slice of the bytes under its name. */
    method ReadFile(inode: Inode, size: nat, offset: nat, ghost name: Name) returns (buffer: seq<Byte>)
      requires Valid() && OpenOn(inode, name)
      modifies vol.cache, vol.cache.cache, vol.cache.device
      ensures Valid() && name in View() && buffer == Slice(View()[name], offset, size)
    {
      RootFacts();
      FileFacts(inode.sector);
      buffer := Inodes.ReadOpen(vol, inode, size, offset, files[inode.sector].secs);
    }

    /** inode_write_at of BYTES on an open file. When they fit, they are spliced into the bytes under
        its name, and no other name's bytes change. When they do not fit, no byte of any file changes;
        the sectors that the file got stay in its open inode, and the free map's inode is zeroed
        exactly when they ran out at an index block. */
    method WriteFile(inode: Inode, bytes: seq<Byte>, offset: nat, ghost name: Name) returns (written: nat)
      requires Valid() && OpenOn(inode, name) && 0 < |bytes| && offset + |bytes| < 0x8000_0000
      modifies this`files, this`slots, vol`disk, vol`tags, vol.cache, vol.cache.cache, vol.cache.device, vol.freeMap.bits, inode
      ensures written == if old(FileFits(inode, offset + |bytes|)) then |bytes| else 0
      ensures slots == old(slots) && LostKept(old(vol.tags), vol.tags)
      ensures written > 0 ==> Valid() && OpenOn(inode, name)
      ensures written > 0 ==> SystemKept(old(vol.tags), vol.tags)
      ensures written > 0 ==> Dict(slots)[name] as nat in old(files) && Dict(slots)[name] as nat in files
      ensures written > 0 ==>
                Grew(old(vol.tags), vol.tags, Dict(slots)[name], old(files)[Dict(slots)[name] as nat].secs, files[Dict(slots)[name] as nat].secs)
      ensures written > 0 ==> name in old(View()) && View() == old(View())[name := Spliced(old(View())[name], offset, bytes)]
      ensures written > 0 && offset + |bytes| <= old(inode.data.length) ==> vol.tags == old(vol.tags) && files == old(files)
      ensures written == 0 ==> vol.Ok() && View() == old(View()) && files == old(files)
                               && FileBytes(vol.disk, files[1]) == DirImage(slots)
      ensures written == 0 ==>
                |FreeList(vol.tags)| == |FreeList(old(vol.tags))|
                  - WriteTaken(|FreeList(old(vol.tags))|, |old(files)[inode.sector].secs|, Sectors(offset + |bytes|))
      ensures written == 0 && |old(files)[inode.sector].secs| <= DIRECT ==>
                Suspended(inode.sector)
                && LoseFrom(vol.tags, inode.sector, |files[inode.sector].secs|) ==
                   WrittenOff(old(vol.tags), Part(FreeList(old(vol.tags)), 0, |FreeList(old(vol.tags))| - |FreeList(vol.tags)|))
      ensures Sector0(vol.disk) == if old(WriteOverruns(inode, offset + |bytes|)) then Zeros() else Sector0(old(vol.disk))
      ensures Mountable() <==> old(Mountable()) && !old(WriteOverruns(inode, offset + |bytes|))
    {
      ghost var disk0, tags0, secs1, num := vol.disk, vol.tags, [], Sectors(offset + |bytes|);
      RootFacts();
      OpenFacts(inode, name);
      MapInodeIsNotZero();
      FitIsNoOverrun(inode, offset + |bytes|);
      ghost var over := WriteOverruns(inode, offset + |bytes|);
      written, secs1 := StoreBytes(inode, bytes, offset, files[inode.sector].secs);
      if written > 0 {
        NoteWrite(inode, bytes, offset, name, secs1, disk0, tags0);
      } else {
        vol.MapFileFacts();
        RefusedFile(inode.sector, disk0, tags0, secs1, num);
      }
      StillMountable(disk0, over);
    }

    /** A write to file ID that did not fit since DISK0 and TAGS0, seen through the names. */
    lemma RefusedFile(id: nat, disk0: seq<Block>, tags0: seq<Tag>, secs1: seq<nat>, num: nat)
      requires Handles() && Slots(slots) && Named(Dict(slots), files) && FileBytes(disk0, files[1]) == DirImage(slots)
      requires World(disk0, tags0, files) && id in files && id != 0
      requires Refused(disk0, vol.disk, tags0, vol.tags, id, files[id].secs, secs1, num)
      ensures View() == ViewOf(disk0, files, Dict(slots)) && FileBytes(vol.disk, files[1]) == DirImage(slots)
      ensures LostKept(tags0, vol.tags)
      ensures |FreeList(vol.tags)| == |FreeList(tags0)| - WriteTaken(|FreeList(tags0)|, |files[id].secs|, num)
      ensures Sector0(vol.disk) == if Overruns(|files[id].secs|, |FreeList(tags0)|, num) then Zeros() else Sector0(disk0)
      ensures |files[id].secs| <= DIRECT ==>
                Suspended(id)
                && LoseFrom(vol.tags, id, |files[id].secs|) ==
                   WrittenOff(tags0, Part(FreeList(tags0), 0, |FreeList(tags0)| - |FreeList(vol.tags)|))
    {
      RefusedWrite(disk0, vol.disk, tags0, vol.tags, files, id, secs1, num);
      HarmlessView(disk0, tags0);
      if |files[id].secs| <= DIRECT {
        Suspend(id, disk0, tags0, secs1, num);
      }
    }

    /** Whether the free map's inode is intact depends on whether sector 0 was zeroed since DISK0. */
    lemma StillMountable(disk0: seq<Block>, zeroed: bool)
      requires vol.freeMapFile != null && |vol.freeMapFile.data.direct| == DIRECT && EncodeInode(vol.freeMapFile.data) != Zeros()
      requires Sector0(vol.disk) == if zeroed then Zeros() else Sector0(disk0)
      ensures Mountable() <==> Sector0(disk0) == EncodeInode(vol.freeMapFile.data) && !zeroed
    {
    }

    /** All is well but that the open inode of file ID keeps sectors that the file on the disk does not have. */
    ghost predicate Suspended(id: nat)
      reads this, vol, vol.freeMapFile, vol.cache, vol.cache.cache, vol.cache.device, vol.freeMap, vol.freeMap.bits, root
    {
      id in files && SuspendedBody(id) == true
    }

    ghost predicate SuspendedBody(id: nat)
      requires id in files
      reads this, vol, vol.freeMapFile, vol.cache, vol.cache.cache, vol.cache.device, vol.freeMap, vol.freeMap.bits, root
    {
      && id != 0 && Handles() && Slots(slots) && Named(Dict(slots), files) && FileBytes(vol.disk, files[1]) == DirImage(slots)
      && World(vol.disk, LoseFrom(vol.tags, id, |files[id].secs|), files)
    }

    /** A write to file ID that did not fit since DISK0 and TAGS0. */
    lemma Suspend(id: nat, disk0: seq<Block>, tags0: seq<Tag>, secs1: seq<nat>, num: nat)
      requires Handles() && Slots(slots) && Named(Dict(slots), files) && FileBytes(vol.disk, files[1]) == DirImage(slots)
      requires World(disk0, tags0, files) && id in files && id != 0 && |files[id].secs| <= DIRECT
      requires Refused(disk0, vol.disk, tags0, vol.tags, id, files[id].secs, secs1, num)
      ensures Suspended(id) && |FreeList(vol.tags)| <= |FreeList(tags0)|
      ensures LoseFrom(vol.tags, id, |files[id].secs|) ==
              WrittenOff(tags0, Part(FreeList(tags0), 0, |FreeList(tags0)| - |FreeList(vol.tags)|))
    {
      vol.MapFileFacts();
      RefusedFacts(disk0, vol.disk, tags0, vol.tags, id, files[id].secs, secs1, num);
      WorldClosed(disk0, vol.disk, tags0, vol.tags, files, id, secs1, num);
      ClosedLoses(disk0, tags0, vol.tags, files, id, secs1);
    }

    /** inode_close of the handle on file ID after such a write: nothing is left of what its inode held, and
        all is well again; the sectors are lost. */
    ghost method CloseHandle(id: nat)
      requires Suspended(id)
      modifies vol`tags
      ensures Valid() && View() == old(View()) && vol.tags == LoseFrom(old(vol.tags), id, |files[id].secs|)
      ensures |FreeList(vol.tags)| == |FreeList(old(vol.tags))|
    {
      LoseFromKeepsFree(vol.tags, id, |files[id].secs|);
      vol.AbandonFrom(id, |files[id].secs|);
    }

    /** Takes note of a completed write to the file under NAME since DISK0 and TAGS0. */
    ghost method NoteWrite(inode: Inode, bytes: seq<Byte>, offset: nat, name: Name, secs1: seq<nat>, disk0: seq<Block>, tags0: seq<Tag>)
      requires Handles() && Slots(slots) && FileBytes(disk0, files[1]) == DirImage(slots)
      requires World(disk0, tags0, files) && Named(Dict(slots), files) && |tags0| < |disk0|
      requires name in Dict(slots) && inode.sector == Dict(slots)[name] as nat && inode.sector in files
      requires !inode.removed && inode.denyWriteCnt == 0 && inode != root && inode != vol.freeMapFile
      requires Written(disk0, vol.disk, tags0, vol.tags, inode.sector, files[inode.sector].d, inode.data,
                       files[inode.sector].secs, secs1, offset, bytes)
      modifies this`files, this`slots
      ensures Valid() && OpenOn(inode, name) && slots == old(slots)
      ensures SystemKept(tags0, vol.tags) && Sector0(vol.disk) == Sector0(disk0)
      ensures inode.sector in files && Grew(tags0, vol.tags, inode.sector, old(files)[inode.sector].secs, files[inode.sector].secs)
      ensures name in ViewOf(disk0, old(files), Dict(slots))
      ensures View() == ViewOf(disk0, old(files), Dict(slots))[name := Spliced(ViewOf(disk0, old(files), Dict(slots))[name], offset, bytes)]
      ensures offset + |bytes| <= old(files)[inode.sector].d.length ==> vol.tags == tags0 && files == old(files)
    {
      vol.MapFileFacts();
      NameWritten(disk0, vol.disk, tags0, vol.tags, files, Dict(slots), name, inode.data, secs1, offset, bytes);
      Settle(files[inode.sector := FileState(inode.data, secs1)], slots);
    }

    lemma FitIsNoOverrun(inode: Inode, end: nat)
      requires Valid() && inode.sector in files && inode.data == files[inode.sector].d
      ensures FileFits(inode, end) ==> !WriteOverruns(inode, end)
    {
      FileFacts(inode.sector);
      if FileFits(inode, end) {
        FitsIsNoOverrun(|FreeList(vol.tags)|, files[inode.sector].secs, inode.data.length, end);
      }
    }

    /** A write up to END would zero the free map's inode. */
    ghost predicate WriteOverruns(inode: Inode, end: nat)
      requires inode.sector in files
      reads this, vol, inode
    {
      Overruns(|files[inode.sector].secs|, |FreeList(vol.tags)|, Sectors(end))
    }

    lemma OpenFacts(inode: Inode, name: Name)
      requires Valid() && OpenOn(inode, name)
      ensures Handles() && vol.Opened(inode, files[inode.sector].secs) && inode.sector != 0
    {
      RootFacts();
      FileFacts(inode.sector);
      NamedFacts(Dict(slots), files, name);
    }

    /** The write itself, to an open file with sectors SECS. */
    method StoreBytes(inode: Inode, bytes: seq<Byte>, offset: nat, ghost secs: seq<nat>) returns (written: nat, ghost secs1: seq<nat>)
      requires vol.Ok() && vol.Opened(inode, secs) && 0 < |bytes| && offset + |bytes| < 0x8000_0000
      requires inode != vol.freeMapFile && inode.sector != 0 && !inode.removed && inode.denyWriteCnt == 0
      modifies vol`disk, vol`tags, vol.cache, vol.cache.cache, vol.cache.device, vol.freeMap.bits, inode
      ensures vol.Ok() && !inode.removed && inode.denyWriteCnt == 0
      ensures written == if Fits(|FreeList(old(vol.tags))|, secs, old(inode.data.length), offset + |bytes|) then |bytes| else 0
      ensures written > 0 ==> Written(old(vol.disk), vol.disk, old(vol.tags), vol.tags, inode.sector, old(inode.data), inode.data,
                                      secs, secs1, offset, bytes)
      ensures written == 0 ==> Refused(old(vol.disk), vol.disk, old(vol.tags), vol.tags, inode.sector, secs, secs1, Sectors(offset + |bytes|))
    {
      written, secs1 := vol.WriteAt(inode, bytes, offset, secs);
    }

    ghost predicate FileFits(inode: Inode, end: nat)
      requires inode.sector in files
      reads this, vol, inode
    {
      Fits(|FreeList(vol.tags)|, files[inode.sector].secs, inode.data.length, end)
    }
  }
}
