/** Whole runs of operations on a file system: for its user it is a map from names to bytes, a number of
    free sectors and a number of directory slots. These alone decide what every operation returns. */
module Sessions {
  import opened Blocks
  import opened Layout
  import opened Content
  import opened Reserving
  import opened Volumes
  import opened Growth
  import opened Ownership
  import opened Paths
  import opened Directories
  import opened FileSystems
  import Formatting
  import Bitmaps

  /** filesys_create and filesys_remove, and a write or a read through a handle from filesys_open, which
      is closed again. */
  datatype Op =
    | Make(path: Name, size: Offset)
    | Erase(path: Name)
    | Put(path: Name, bytes: seq<Byte>, offset: nat)
    | Get(path: Name, count: nat, offset: nat)

  datatype Outcome = Failed | Done | Got(bytes: seq<Byte>)

  type View = map<Name, seq<Byte>>

  /** What a user can tell of a file system: the bytes under each name, how many sectors are free, how many
      slots the directory has, and whether the free map's inode is intact, so that it can be started again. */
  datatype State = State(view: View, free: nat, slots: nat, intact: bool)

  /** Arguments that the functions take: C strings, no folder that is a file, no handle on the directory
      itself, and a write of at least one byte below 2 GB. */
  predicate Proper(op: Op) {
    && 0 !in op.path
    && (op.Erase? ==> forall folder :: folder in Folders(op.path) ==> Dots(folder))
    && (op.Put? || op.Get? ==> op.path == [] || (LastName(op.path) != [] && !Dots(LastName(op.path))))
    && (op.Put? ==> 0 < |op.bytes| && op.offset + |op.bytes| < 0x8000_0000)
  }

  /** The sectors of a file of this length. */
  function FileCost(length: nat): nat { Cost(Sectors(length)) }

  /** The sectors of a directory with n slots. */
  function DirCost(n: nat): nat { FileCost(36 * n) }

  /** Every slot but the parent's has a name. */
  predicate Full(st: State) { |st.view| + 1 == st.slots }

  /** With FREE free sectors there is a slot for one more name. */
  predicate SlotFor(st: State, free: nat) {
    Full(st) ==> Sectors(36 * (st.slots + 1)) <= MAX_SECTORS && Short(DirCost(st.slots), DirCost(st.slots + 1)) <= free
  }

  predicate NewName(st: State, name: Name) { 0 < |name| <= NAME_MAX && name !in st.view }

  /** filesys_create succeeds. */
  predicate CanMake(st: State, name: Name, size: int) {
    NewName(st, name) && Makes(st.free, size) && SlotFor(st, st.free - 1 - FileCost(size))
  }

  /** It comes to the point where the directory has to grow. */
  predicate Grows(st: State, name: Name, size: int) { NewName(st, name) && Makes(st.free, size) && Full(st) }

  /** What a failed filesys_create loses. */
  function MakeLoses(st: State, name: Name, size: int): (r: nat)
    ensures r <= st.free
  {
    Taken(st.free, size)
    + if Grows(st, name, size)
      then WriteTaken(st.free - 1 - Taken(st.free, size), DirCost(st.slots), Sectors(36 * (st.slots + 1)))
      else 0
  }

  /** Sectors run out where an index block is due. */
  ghost predicate MakeOverruns(st: State, name: Name, size: int) {
    && st.free > 0
    && (Overruns(0, st.free - 1, Wanted(size))
        || (Grows(st, name, size)
            && Overruns(DirCost(st.slots), st.free - 1 - FileCost(size), Sectors(36 * (st.slots + 1)))))
  }

  /** A write up to END fits in a file of LENGTH bytes. */
  predicate CanPut(st: State, length: nat, end: nat) {
    end <= length || (Sectors(end) <= MAX_SECTORS && Short(FileCost(length), FileCost(end)) <= st.free)
  }

  /** The name under which filesys_open finds a file, if there is one. */
  predicate Names(st: State, path: Name) { path != [] && LastName(path) in st.view }

  function Result(st: State, op: Op): Outcome {
    match op
    case Make(path, size) => if CanMake(st, LastName(path), size) then Done else Failed
    case Erase(path) => if LastName(path) in st.view then Done else Failed
    case Put(path, bytes, offset) =>
      if Names(st, path) && CanPut(st, |st.view[LastName(path)]|, offset + |bytes|) then Done else Failed
    case Get(path, count, offset) =>
      if Names(st, path) then Got(Slice(st.view[LastName(path)], offset, count)) else Failed
  }

  ghost function After(st: State, op: Op): State {
    match op
    case Make(path, size) => AfterMake(st, LastName(path), size)
    case Erase(path) =>
      var name := LastName(path);
      if name in st.view then st.(view := st.view - {name}, free := st.free + 1 + FileCost(|st.view[name]|)) else st
    case Put(path, bytes, offset) => if Names(st, path) then AfterPut(st, LastName(path), bytes, offset) else st
    case Get(_, _, _) => st
  }

  ghost function AfterMake(st: State, name: Name, size: int): State {
    if CanMake(st, name, size) then
      var growth := if Full(st) then Short(DirCost(st.slots), DirCost(st.slots + 1)) else 0;
      st.(view := st.view[name := seq(size, _ => 0)],
          free := st.free - 1 - FileCost(size) - growth,
          slots := if Full(st) then st.slots + 1 else st.slots)
    else
      st.(free := st.free - MakeLoses(st, name, size), intact := st.intact && !MakeOverruns(st, name, size))
  }

  ghost function AfterPut(st: State, name: Name, bytes: seq<Byte>, offset: nat): State
    requires name in st.view
  {
    var length, end := |st.view[name]|, offset + |bytes|;
    if CanPut(st, length, end) then
      st.(view := st.view[name := Spliced(st.view[name], offset, bytes)],
          free := st.free - if end <= length then 0 else Short(FileCost(length), FileCost(end)))
    else
      st.(free := st.free - WriteTaken(st.free, FileCost(length), Sectors(end)),
          intact := st.intact && !Overruns(FileCost(length), st.free, Sectors(end)))
  }

  /** The operation fails and may leave entries behind a file's or the directory's end in an index block;
      nothing is said of what follows. */
  predicate Stuck(st: State, op: Op) {
    && Result(st, op) == Failed
    && match op
       case Make(_, _) => DirCost(st.slots) > DIRECT
       case Put(path, _, _) => Names(st, path) && FileCost(|st.view[LastName(path)]|) > DIRECT
       case _ => false
  }

  /** How many sectors the operation loses. */
  function Loses(st: State, op: Op): nat {
    if Result(st, op) != Failed then 0 else
      match op
      case Make(path, size) => MakeLoses(st, LastName(path), size)
      case Put(path, bytes, offset) =>
        if Names(st, path) then WriteTaken(st.free, FileCost(|st.view[LastName(path)]|), Sectors(offset + |bytes|)) else 0
      case _ => 0
  }

  // ----- Runs -----

  ghost function Replay(st: State, ops: seq<Op>): State {
    if ops == [] then st else
      var last := |ops| - 1;
      After(Replay(st, ops[..last]), ops[last])
  }

  ghost function Results(st: State, ops: seq<Op>): (r: seq<Outcome>)
    ensures |r| == |ops|
  {
    if ops == [] then [] else
      var last := |ops| - 1;
      Results(st, ops[..last]) + [Result(Replay(st, ops[..last]), ops[last])]
  }

  ghost function LostIn(st: State, ops: seq<Op>): nat {
    if ops == [] then 0 else
      var last := |ops| - 1;
      LostIn(st, ops[..last]) + Loses(Replay(st, ops[..last]), ops[last])
  }

  /** No operation of the run is stuck. */
  ghost predicate Free(st: State, ops: seq<Op>) {
    ops == [] || (var last := |ops| - 1; Free(st, ops[..last]) && !Stuck(Replay(st, ops[..last]), ops[last]))
  }

  /** The state that a user sees of FS. */
  ghost function Seen(fs: FileSystem): State
    reads fs, fs.vol, fs.vol.freeMapFile
  {
    State(fs.View(), |FreeList(fs.vol.tags)|, |fs.slots|, fs.Mountable())
  }

  /** FS is in order and a user sees ST. */
  ghost predicate At(fs: FileSystem, st: State)
    reads fs, fs.vol, fs.vol.freeMapFile, fs.vol.cache, fs.vol.cache.cache, fs.vol.cache.device, fs.vol.freeMap, fs.vol.freeMap.bits, fs.root
  {
    AtBody(fs, st) == true
  }

  ghost predicate AtBody(fs: FileSystem, st: State)
    reads fs, fs.vol, fs.vol.freeMapFile, fs.vol.cache, fs.vol.cache.cache, fs.vol.cache.device, fs.vol.freeMap, fs.vol.freeMap.bits, fs.root
  {
    fs.Valid() && Seen(fs) == st
  }

  lemma AtFacts(fs: FileSystem, st: State)
    requires At(fs, st)
    ensures fs.Valid() && Seen(fs) == st
  {
  }

  // ----- One operation -----

  lemma {:induction false} NoSlotLeft(slots: seq<Entry>, k: nat)
    requires 1 <= k <= |slots| && slots[0].inUse
    ensures |ListingFrom(slots, k)| <= |slots| - k
    ensures |ListingFrom(slots, k)| == |slots| - k <==> forall j :: k <= j < |slots| ==> slots[j].inUse
    decreases |slots| - k
  {
    if k < |slots| {
      NoSlotLeft(slots, k + 1);
    }
  }

  /** The names, the directory's sectors and its next free slot, as they are seen. */
  lemma SeenFacts(fs: FileSystem)
    requires fs.Valid()
    ensures 1 in fs.files && |fs.files[1].secs| == DirCost(|fs.slots|) && fs.files[1].d.length == 36 * |fs.slots|
    ensures fs.root.data.length == 36 * |fs.slots|
    ensures fs.View().Keys == Dict(fs.slots).Keys && |fs.View()| + 1 <= |fs.slots|
    ensures UnusedFrom(fs.slots, 0) < |fs.slots| <==> !Full(Seen(fs))
  {
    fs.RootFacts();
    fs.FileFacts(1);
    assert |FileBytes(fs.vol.disk, fs.files[1])| == |DirImage(fs.slots)|;
    forall name
      ensures name in fs.View() <==> name in Dict(fs.slots)
    {
      fs.NameFacts(name);
    }
    ListingIsKeys(fs.slots, 1);
    NoSlotLeft(fs.slots, 1);
    SameSize(fs.View(), Dict(fs.slots));
  }

  lemma SameSize(view: View, dict: map<Name, Word>)
    requires forall name :: name in view <==> name in dict
    ensures view.Keys == dict.Keys && |view| == |dict|
  {
    assert view.Keys == dict.Keys;
  }

  /** What filesys_create depends on can all be seen. */
  lemma {:induction false} MakeIsSeen(st: State, slots: seq<Entry>, name: Name, size: int, root: seq<nat>)
    requires |slots| == st.slots > 0 && |root| == DirCost(st.slots) && Dict(slots).Keys == st.view.Keys
    requires UnusedFrom(slots, 0) < |slots| <==> !Full(st)
    ensures MakeSeen(st, slots, name, size, root)
  {
    assert name in Dict(slots) <==> name in st.view;
    GrowthIsSeen(st, slots, name);
    if Makes(st.free, size) {
      RoomIsSeen(st, slots, name, root, st.free - 1 - FileCost(size));
    }
    LossIsSeen(st, slots, name, size, |root|);
    assert MakeSeenBody(st, slots, name, size, root);
  }

  lemma {:induction false} LossIsSeen(st: State, slots: seq<Entry>, name: Name, size: int, root: nat)
    requires root == DirCost(st.slots) && (NoGrowth(slots, name) <==> !(NewName(st, name) && Full(st)))
    requires NewName(st, name) && Full(st) ==> EntryEnd(slots) == 36 * (st.slots + 1)
    ensures MakeLoses(st, name, size) == Wasted(st.free, size, slots, name, root)
    ensures MakeOverruns(st, name, size) <==> CreateOverruns(st.free, size, slots, name, root)
  {
    assert Undoable(st.free, size, slots, name) <==> !Grows(st, name, size);
  }

  lemma {:induction false} GrowthIsSeen(st: State, slots: seq<Entry>, name: Name)
    requires |slots| == st.slots && (UnusedFrom(slots, 0) < |slots| <==> !Full(st))
    requires name in Dict(slots) <==> name in st.view
    ensures NoGrowth(slots, name) <==> !(NewName(st, name) && Full(st))
    ensures Full(st) ==> EntryEnd(slots) == 36 * (st.slots + 1)
  {
  }

  lemma {:induction false} RoomIsSeen(st: State, slots: seq<Entry>, name: Name, root: seq<nat>, free: nat)
    requires |slots| == st.slots > 0 && |root| == DirCost(st.slots)
    requires UnusedFrom(slots, 0) < |slots| <==> !Full(st)
    ensures Fits(free, root, 36 * st.slots, EntryEnd(slots)) <==> SlotFor(st, free)
  {
  }

  ghost predicate MakeSeen(st: State, slots: seq<Entry>, name: Name, size: int, root: seq<nat>) {
    MakeSeenBody(st, slots, name, size, root) == true
  }

  ghost predicate MakeSeenBody(st: State, slots: seq<Entry>, name: Name, size: int, root: seq<nat>) {
    && (CanMake(st, name, size) <==>
        0 < |name| <= NAME_MAX && name !in Dict(slots) && Makes(st.free, size)
        && Fits(st.free - 1 - FileCost(size), root, 36 * st.slots, EntryEnd(slots)))
    && (MakeOverruns(st, name, size) <==> CreateOverruns(st.free, size, slots, name, |root|))
    && MakeLoses(st, name, size) == Wasted(st.free, size, slots, name, |root|)
    && |slots| == st.slots && |root| == DirCost(st.slots) && (Full(st) <==> UnusedFrom(slots, 0) == |slots|)
  }

  lemma MakeIsNoOverrun(st: State, name: Name, size: int)
    requires CanMake(st, name, size)
    ensures !MakeOverruns(st, name, size)
  {
  }

  /** The state ST1 after a successful filesys_create, in which the directory went from ROOT0 to ROOT1
      sectors. */
  lemma MadeState(st: State, st1: State, name: Name, size: nat, root0: nat, root1: nat)
    requires CanMake(st, name, size) && st1.view == st.view[name := seq(size, _ => 0)]
    requires st1.intact <==> st.intact && !MakeOverruns(st, name, size)
    requires st1.slots == if Full(st) then st.slots + 1 else st.slots
    requires root0 == DirCost(st.slots) && root1 == DirCost(st1.slots)
    requires st1.free == st.free - 1 - FileCost(size) - (root1 - root0)
    ensures st1 == AfterMake(st, name, size)
  {
    MakeIsNoOverrun(st, name, size);
    CostGrows(Sectors(36 * st.slots), Sectors(36 * st1.slots));
  }

  /** The state after a successful filesys_create since DISK0, TAGS0, FILES0 and SLOTS0, as ST was. */
  lemma MadeIsSeen(fs: FileSystem, st: State, disk0: seq<Block>, tags0: seq<Tag>, files0: Files, slots0: seq<Entry>,
                   id: nat, name: Name, size: nat)
    requires fs.Valid() && Created(disk0, fs.vol.disk, tags0, fs.vol.tags, files0, fs.files, slots0, fs.slots, id, size, name)
    requires 1 in files0 && MakeSeen(st, slots0, name, size, files0[1].secs) && st.free == |FreeList(tags0)|
    requires CanMake(st, name, size) && fs.View() == st.view[name := seq(size, _ => 0)]
    requires fs.Mountable() <==> st.intact && !MakeOverruns(st, name, size)
    ensures At(fs, AfterMake(st, name, size)) && LostKept(tags0, fs.vol.tags)
  {
    CreatedFacts(disk0, fs.vol.disk, tags0, fs.vol.tags, files0, fs.files, slots0, fs.slots, id, size, name);
    SeenFacts(fs);
    MadeState(st, Seen(fs), name, size, |files0[1].secs|, |fs.files[1].secs|);
    assert AtBody(fs, AfterMake(st, name, size));
  }

  /** And after a failed one. */
  lemma FailedIsSeen(fs: FileSystem, st: State, name: Name, size: int)
    requires fs.Valid() && !CanMake(st, name, size) && fs.View() == st.view && |fs.slots| == st.slots
    requires |FreeList(fs.vol.tags)| == st.free - MakeLoses(st, name, size)
    requires fs.Mountable() <==> st.intact && !MakeOverruns(st, name, size)
    ensures At(fs, AfterMake(st, name, size))
  {
    assert AtBody(fs, AfterMake(st, name, size));
  }

  /** Exactly N sectors were lost. */
  ghost predicate LostSome(tags0: seq<Tag>, tags1: seq<Tag>, n: nat) {
    exists lost: seq<nat> :: |lost| == n && LostNow(tags0, tags1, lost)
  }

  /** The sectors LOST, all different, were lost and no others. */
  ghost predicate LostNow(tags0: seq<Tag>, tags1: seq<Tag>, lost: seq<nat>) {
    LostNowBody(tags0, tags1, lost) == true
  }

  ghost predicate LostNowBody(tags0: seq<Tag>, tags1: seq<Tag>, lost: seq<nat>) {
    && LostToo(tags0, tags1, lost) && Distinct(lost)
    && forall k :: 0 <= k < |lost| ==> lost[k] < |tags0| && tags0[lost[k]] != Lost
  }

  predicate Distinct(s: seq<nat>) {
    forall j, k :: 0 <= j < k < |s| ==> s[j] != s[k]
  }

  lemma NoneLostNow(tags0: seq<Tag>, tags1: seq<Tag>)
    requires LostKept(tags0, tags1)
    ensures LostSome(tags0, tags1, 0)
  {
    assert LostNow(tags0, tags1, []);
  }

  lemma PartLostNow(tags0: seq<Tag>, tags1: seq<Tag>, lo: nat, n: nat)
    requires lo + n <= |FreeList(tags0)| && LostToo(tags0, tags1, Part(FreeList(tags0), lo, n))
    ensures LostSome(tags0, tags1, n)
  {
    FreeDistinct(tags0, 0);
    assert LostNow(tags0, tags1, Part(FreeList(tags0), lo, n));
  }

  lemma WastedLostNow(tags0: seq<Tag>, tags1: seq<Tag>, size: int, slots: seq<Entry>, name: Name, root: nat)
    requires LostToo(tags0, tags1, WastedFrom(FreeList(tags0), size, slots, name, root))
    ensures LostSome(tags0, tags1, Wasted(|FreeList(tags0)|, size, slots, name, root))
  {
    if FreeList(tags0) == [] {
      NoneLostNow(tags0, tags1);
    } else {
      PartLostNow(tags0, tags1, 1, Wasted(|FreeList(tags0)|, size, slots, name, root));
    }
  }

  /** filesys_create, seen from ST. */
  method MakeFile(fs: FileSystem, path: Name, size: Offset, ghost st: State) returns (ok: bool)
    requires At(fs, st) && 0 !in path
    modifies fs`files, fs`slots, fs.vol`disk, fs.vol`tags, fs.vol.cache, fs.vol.cache.cache, fs.vol.cache.device
    modifies fs.vol.freeMap.bits, fs.root
    ensures ok <==> CanMake(st, LastName(path), size)
    ensures ok || DirCost(st.slots) <= DIRECT ==> At(fs, AfterMake(st, LastName(path), size))
    ensures !ok ==> fs.vol.Ok() && fs.View() == st.view
    ensures LostSome(old(fs.vol.tags), fs.vol.tags, if ok then 0 else MakeLoses(st, LastName(path), size))
  {
    ghost var disk0, tags0, files0, slots0, name := fs.vol.disk, fs.vol.tags, fs.files, fs.slots, LastName(path);
    AtFacts(fs, st);
    SeenFacts(fs);
    MakeIsSeen(st, slots0, name, size, files0[1].secs);
    ghost var id;
    ok, id := fs.Create(path, size);
    if ok {
      MadeIsSeen(fs, st, disk0, tags0, files0, slots0, id, name, size);
      NoneLostNow(tags0, fs.vol.tags);
    } else {
      WastedLostNow(tags0, fs.vol.tags, size, slots0, name, |files0[1].secs|);
      if DirCost(st.slots) <= DIRECT {
        FailedIsSeen(fs, st, name, size);
      }
    }
  }

  method StepMake(fs: FileSystem, path: Name, size: Offset, ghost st: State) returns (ran: bool, out: Outcome)
    requires At(fs, st) && Proper(Make(path, size))
    modifies fs`files, fs`slots, fs.vol`disk, fs.vol`tags, fs.vol.cache, fs.vol.cache.cache, fs.vol.cache.device
    modifies fs.vol.freeMap.bits, fs.root
    ensures out == Result(st, Make(path, size)) && (ran <==> !Stuck(st, Make(path, size)))
    ensures if ran then At(fs, After(st, Make(path, size))) else fs.vol.Ok() && fs.View() == st.view
    ensures LostSome(old(fs.vol.tags), fs.vol.tags, Loses(st, Make(path, size)))
  {
    AtFacts(fs, st);
    SeenFacts(fs);
    var dirSize := fs.root.data.length;
    var ok := MakeFile(fs, path, size, st);
    ran := ok || Cost(Sectors(dirSize)) <= DIRECT;
    out := if ok then Done else Failed;
  }

  /** filesys_remove, seen from ST. */
  method StepErase(fs: FileSystem, path: Name, ghost st: State) returns (out: Outcome)
    requires At(fs, st) && Proper(Erase(path))
    modifies fs`files, fs`slots, fs.vol`disk, fs.vol`tags, fs.vol.cache, fs.vol.cache.cache, fs.vol.cache.device
    modifies fs.vol.freeMap.bits, fs.root
    ensures out == Result(st, Erase(path)) && At(fs, After(st, Erase(path)))
    ensures LostSome(old(fs.vol.tags), fs.vol.tags, 0)
  {
    ghost var disk0, tags0, files0, slots0, name := fs.vol.disk, fs.vol.tags, fs.files, fs.slots, LastName(path);
    AtFacts(fs, st);
    fs.RootFacts();
    fs.NameFacts(name);
    var ok := fs.Remove(path);
    out := if ok then Done else Failed;
    fs.RootFacts();
    NoneLostNow(tags0, fs.vol.tags);
    assert AtBody(fs, After(st, Erase(path)));
  }

  /** What the outcome of a write to an open file depends on can be seen. */
  lemma PutIsSeen(fs: FileSystem, inode: Inode, name: Name, end: nat)
    requires fs.Valid() && fs.OpenOn(inode, name)
    ensures name in fs.View() && |fs.View()[name]| == inode.data.length
    ensures |fs.files[inode.sector].secs| == FileCost(inode.data.length)
    ensures fs.FileFits(inode, end) <==> CanPut(Seen(fs), inode.data.length, end)
    ensures fs.WriteOverruns(inode, end) <==> Overruns(FileCost(inode.data.length), |FreeList(fs.vol.tags)|, Sectors(end))
  {
    fs.NameFacts(name);
    fs.FileFacts(inode.sector);
    assert |FileBytes(fs.vol.disk, fs.files[inode.sector])| == inode.data.length;
  }

  /** What a write that fits does to the number of free sectors. */
  lemma PutTakes(fs: FileSystem, name: Name, tags0: seq<Tag>, id: nat, secs0: seq<nat>, length: nat, end: nat)
    requires fs.Valid() && name in Dict(fs.slots) && name in fs.View() && Dict(fs.slots)[name] as nat == id
    requires |fs.View()[name]| == (if end > length then end else length) && |secs0| == FileCost(length) && id in fs.files
    requires Grew(tags0, fs.vol.tags, id, secs0, fs.files[id].secs)
    ensures |FreeList(fs.vol.tags)| == |FreeList(tags0)| - (if end <= length then 0 else Short(FileCost(length), FileCost(end)))
  {
    fs.NameFacts(name);
    CostGrows(Sectors(length), Sectors(|fs.View()[name]|));
  }

  lemma PutIsNoOverrun(st: State, length: nat, end: nat)
    requires CanPut(st, length, end)
    ensures !Overruns(FileCost(length), st.free, Sectors(end))
  {
    if end <= length {
      CostGrows(Min(Sectors(end), MAX_SECTORS), Sectors(length));
    }
  }

  /** The state after a write that fits. */
  lemma PutIsDone(fs: FileSystem, st: State, name: Name, bytes: seq<Byte>, offset: nat, tags0: seq<Tag>, id: nat, secs0: seq<nat>)
    requires fs.Valid() && name in Dict(fs.slots) && Dict(fs.slots)[name] as nat == id && id in fs.files
    requires name in st.view && CanPut(st, |st.view[name]|, offset + |bytes|) && st.free == |FreeList(tags0)|
    requires |secs0| == FileCost(|st.view[name]|) && Grew(tags0, fs.vol.tags, id, secs0, fs.files[id].secs)
    requires fs.View() == st.view[name := Spliced(st.view[name], offset, bytes)] && |fs.slots| == st.slots
    requires fs.Mountable() <==> st.intact && !Overruns(FileCost(|st.view[name]|), st.free, Sectors(offset + |bytes|))
    ensures At(fs, AfterPut(st, name, bytes, offset))
  {
    PutIsNoOverrun(st, |st.view[name]|, offset + |bytes|);
    PutTakes(fs, name, tags0, id, secs0, |st.view[name]|, offset + |bytes|);
    assert AtBody(fs, AfterPut(st, name, bytes, offset));
  }

  /** inode_write_at and inode_close through a handle on the file under NAME, seen from ST. */
  method PutFile(fs: FileSystem, inode: Inode, name: Name, bytes: seq<Byte>, offset: nat, ghost st: State) returns (written: nat)
    requires At(fs, st) && fs.OpenOn(inode, name) && 0 < |bytes| && offset + |bytes| < 0x8000_0000 && name in st.view
    modifies fs`files, fs`slots, fs.vol`disk, fs.vol`tags, fs.vol.cache, fs.vol.cache.cache, fs.vol.cache.device
    modifies fs.vol.freeMap.bits, inode
    ensures written == if CanPut(st, |st.view[name]|, offset + |bytes|) then |bytes| else 0
    ensures written > 0 ==> At(fs, AfterPut(st, name, bytes, offset)) && LostSome(old(fs.vol.tags), fs.vol.tags, 0)
    ensures written == 0 && FileCost(|st.view[name]|) > DIRECT ==> fs.vol.Ok() && fs.View() == st.view
    ensures written == 0 && FileCost(|st.view[name]|) <= DIRECT ==>
              At(fs, AfterPut(st, name, bytes, offset))
              && LostSome(old(fs.vol.tags), fs.vol.tags, WriteTaken(st.free, FileCost(|st.view[name]|), Sectors(offset + |bytes|)))
  {
    AtFacts(fs, st);
    PutIsSeen(fs, inode, name, offset + |bytes|);
    ghost var id, tags0, secs0, length := inode.sector, fs.vol.tags, fs.files[inode.sector].secs, |st.view[name]|;
    written := fs.WriteFile(inode, bytes, offset, name);
    if written > 0 {
      PutIsDone(fs, st, name, bytes, offset, tags0, id, secs0);
      NoneLostNow(tags0, fs.vol.tags);
    } else if FileCost(length) <= DIRECT {
      CloseRefused(fs, id, tags0, st, name, bytes, offset);
    }
  }

  /** inode_close after a write that did not fit. */
  ghost method CloseRefused(fs: FileSystem, id: nat, tags0: seq<Tag>, st: State, name: Name, bytes: seq<Byte>, offset: nat)
    requires fs.Suspended(id) && name in st.view && !CanPut(st, |st.view[name]|, offset + |bytes|)
    requires fs.View() == st.view && |fs.slots| == st.slots && |FreeList(tags0)| == st.free
    requires var taken := WriteTaken(st.free, FileCost(|st.view[name]|), Sectors(offset + |bytes|));
             |FreeList(fs.vol.tags)| == st.free - taken
             && LoseFrom(fs.vol.tags, id, |fs.files[id].secs|) == WrittenOff(tags0, Part(FreeList(tags0), 0, taken))
    requires fs.Mountable() <==> st.intact && !Overruns(FileCost(|st.view[name]|), st.free, Sectors(offset + |bytes|))
    modifies fs.vol`tags
    ensures At(fs, AfterPut(st, name, bytes, offset))
    ensures LostSome(tags0, fs.vol.tags, WriteTaken(st.free, FileCost(|st.view[name]|), Sectors(offset + |bytes|)))
  {
    fs.CloseHandle(id);
    PartLostNow(tags0, fs.vol.tags, 0, WriteTaken(st.free, FileCost(|st.view[name]|), Sectors(offset + |bytes|)));
    assert AtBody(fs, AfterPut(st, name, bytes, offset));
  }

  /** The outcome of such a write, case by case. */
  lemma PutOutcome(st: State, path: Name, bytes: seq<Byte>, offset: nat)
    ensures var op := Put(path, bytes, offset);
            if !Names(st, path) then
              Result(st, op) == Failed && !Stuck(st, op) && After(st, op) == st && Loses(st, op) == 0
            else
              var length, end := |st.view[LastName(path)]|, offset + |bytes|;
              && Result(st, op) == (if CanPut(st, length, end) then Done else Failed)
              && (Stuck(st, op) <==> !CanPut(st, length, end) && FileCost(length) > DIRECT)
              && After(st, op) == AfterPut(st, LastName(path), bytes, offset)
              && Loses(st, op) == if CanPut(st, length, end) then 0 else WriteTaken(st.free, FileCost(length), Sectors(end))
  {
  }

  /** A write through a handle from filesys_open, which is closed again, seen from ST. */
  method StepPut(fs: FileSystem, path: Name, bytes: seq<Byte>, offset: nat, ghost st: State) returns (ran: bool, out: Outcome)
    requires At(fs, st) && Proper(Put(path, bytes, offset))
    modifies fs`files, fs`slots, fs.vol`disk, fs.vol`tags, fs.vol.cache, fs.vol.cache.cache, fs.vol.cache.device
    modifies fs.vol.freeMap.bits
    ensures out == Result(st, Put(path, bytes, offset)) && (ran <==> !Stuck(st, Put(path, bytes, offset)))
    ensures if ran then At(fs, After(st, Put(path, bytes, offset))) && LostSome(old(fs.vol.tags), fs.vol.tags, Loses(st, Put(path, bytes, offset)))
            else fs.vol.Ok() && fs.View() == st.view
  {
    ran, out := true, Failed;
    NoneLostNow(fs.vol.tags, fs.vol.tags);
    var inode := OpenAt(fs, path, st);
    PutOutcome(st, path, bytes, offset);
    if inode != null {
      var length := inode.data.length;
      var written := PutFile(fs, inode, LastName(path), bytes, offset, st);
      ran := written > 0 || Cost(Sectors(length)) <= DIRECT;
      out := if written > 0 then Done else Failed;
    }
  }

  /** filesys_open, seen from ST. */
  method OpenAt(fs: FileSystem, path: Name, ghost st: State) returns (inode: Inode?)
    requires At(fs, st) && (path == [] || (LastName(path) != [] && !Dots(LastName(path))))
    modifies fs.vol.cache, fs.vol.cache.cache, fs.vol.cache.device
    ensures At(fs, st) && (inode != null <==> Names(st, path))
    ensures inode != null ==> fresh(inode) && fs.OpenOn(inode, LastName(path)) && inode.data.length == |st.view[LastName(path)]|
  {
    AtFacts(fs, st);
    fs.NameFacts(LastName(path));
    inode := fs.OpenName(path);
    assert AtBody(fs, st);
    if inode != null {
      PutIsSeen(fs, inode, LastName(path), 0);
    }
  }

  /** A read through a handle. */
  method StepGet(fs: FileSystem, path: Name, count: nat, offset: nat, ghost st: State) returns (out: Outcome)
    requires At(fs, st) && Proper(Get(path, count, offset))
    modifies fs.vol.cache, fs.vol.cache.cache, fs.vol.cache.device
    ensures out == Result(st, Get(path, count, offset)) && At(fs, st)
  {
    out := Failed;
    var inode := OpenAt(fs, path, st);
    if inode != null {
      AtFacts(fs, st);
      var bytes := fs.ReadFile(inode, count, offset, LastName(path));
      out := Got(bytes);
      assert AtBody(fs, st);
    }
  }

  /** One operation, seen from ST. Only a stuck one leaves the file system in disorder; it changes no
      byte of any file. */
  method Step(fs: FileSystem, op: Op, ghost st: State) returns (ran: bool, out: Outcome)
    requires At(fs, st) && Proper(op)
    modifies fs`files, fs`slots, fs.vol`disk, fs.vol`tags, fs.vol.cache, fs.vol.cache.cache, fs.vol.cache.device
    modifies fs.vol.freeMap.bits, fs.root
    ensures out == Result(st, op) && (ran <==> !Stuck(st, op))
    ensures if ran then At(fs, After(st, op)) && LostSome(old(fs.vol.tags), fs.vol.tags, Loses(st, op))
            else fs.vol.Ok() && fs.View() == st.view
  {
    match op
    case Make(path, size) =>
      ran, out := StepMake(fs, path, size, st);
    case Erase(path) =>
      out := StepErase(fs, path, st);
      ran := true;
    case Put(path, bytes, offset) =>
      ran, out := StepPut(fs, path, bytes, offset, st);
    case Get(path, count, offset) =>
      NoneLostNow(fs.vol.tags, fs.vol.tags);
      out := StepGet(fs, path, count, offset, st);
      ran := true;
  }

  // ----- Runs of operations -----

  lemma LostMore(tags0: seq<Tag>, tags1: seq<Tag>, tags2: seq<Tag>, m: nat, n: nat)
    requires LostSome(tags0, tags1, m) && LostSome(tags1, tags2, n)
    ensures LostSome(tags0, tags2, m + n)
  {
    var lost1: seq<nat> :| |lost1| == m && LostNow(tags0, tags1, lost1);
    var lost2: seq<nat> :| |lost2| == n && LostNow(tags1, tags2, lost2);
    LostMoreNow(tags0, tags1, tags2, lost1, lost2);
  }

  lemma LostMoreNow(tags0: seq<Tag>, tags1: seq<Tag>, tags2: seq<Tag>, lost1: seq<nat>, lost2: seq<nat>)
    requires LostNow(tags0, tags1, lost1) && LostNow(tags1, tags2, lost2)
    ensures LostNow(tags0, tags2, lost1 + lost2)
  {
    forall j, k | 0 <= j < |lost1| && 0 <= k < |lost2|
      ensures lost1[j] != lost2[k]
    {
      assert lost1[j] in lost1;
    }
    assert LostNowBody(tags0, tags2, lost1 + lost2);
  }

  /** A run, up to the first operation that gets stuck, if any does: the results are those foretold, and
      so are the bytes of every file and the sectors that are free and lost. */
  method Run(fs: FileSystem, ops: seq<Op>, ghost st: State) returns (outs: seq<Outcome>, complete: bool, ghost done: seq<Op>)
    requires At(fs, st) && forall op :: op in ops ==> Proper(op)
    modifies fs`files, fs`slots, fs.vol`disk, fs.vol`tags, fs.vol.cache, fs.vol.cache.cache, fs.vol.cache.device
    modifies fs.vol.freeMap.bits, fs.root
    ensures complete <==> Free(st, ops)
    ensures complete ==> done == ops && At(fs, Replay(st, ops)) && Ran(st, ops, outs, old(fs.vol.tags), fs.vol.tags)
    ensures !complete ==> done < ops && Jammed(st, done, ops[|done|], outs) && fs.vol.Ok() && fs.View() == Replay(st, done).view
  {
    ghost var tags0 := fs.vol.tags;
    outs, complete, done := [], true, [];
    NothingRan(st, tags0);
    var k := 0;
    while k < |ops|
      invariant k <= |ops| && |done| == k && done <= ops && At(fs, Replay(st, done)) && Ran(st, done, outs, tags0, fs.vol.tags)
    {
      var op := ops[k];
      assert op in ops;
      complete, outs := RunOne(fs, op, outs, done, st, tags0);
      if !complete {
        JammedIsNotFree(st, ops, done, outs);
        return;
      }
      done := done + [op];
      k := k + 1;
    }
    assert done == ops;
  }

  /** The next operation of a run that has DONE some. */
  method RunOne(fs: FileSystem, op: Op, outs: seq<Outcome>, ghost done: seq<Op>, ghost st: State, ghost tags0: seq<Tag>)
    returns (ran: bool, outs1: seq<Outcome>)
    requires At(fs, Replay(st, done)) && Ran(st, done, outs, tags0, fs.vol.tags) && Proper(op)
    modifies fs`files, fs`slots, fs.vol`disk, fs.vol`tags, fs.vol.cache, fs.vol.cache.cache, fs.vol.cache.device
    modifies fs.vol.freeMap.bits, fs.root
    ensures if ran then At(fs, Replay(st, done + [op])) && Ran(st, done + [op], outs1, tags0, fs.vol.tags)
            else fs.vol.Ok() && Jammed(st, done, op, outs1) && fs.View() == Replay(st, done).view
  {
    ghost var st1, tags1 := Replay(st, done), fs.vol.tags;
    var out;
    ran, out := Step(fs, op, st1);
    outs1 := outs + [out];
    if ran {
      RanMore(st, done, op, outs, out, tags0, tags1, fs.vol.tags);
    } else {
      RanJammed(st, done, op, outs, out, tags0, tags1);
    }
  }

  /** A run in which no operation got stuck. */
  ghost predicate Ran(st: State, ops: seq<Op>, outs: seq<Outcome>, tags0: seq<Tag>, tags1: seq<Tag>) {
    RanBody(st, ops, outs, tags0, tags1) == true
  }

  ghost predicate RanBody(st: State, ops: seq<Op>, outs: seq<Outcome>, tags0: seq<Tag>, tags1: seq<Tag>) {
    outs == Results(st, ops) && LostSome(tags0, tags1, LostIn(st, ops)) && Free(st, ops)
  }

  /** After DONE, the operation OP gets stuck. */
  ghost predicate Jammed(st: State, done: seq<Op>, op: Op, outs: seq<Outcome>) {
    (outs == Results(st, done + [op]) && Stuck(Replay(st, done), op)) == true
  }

  lemma NothingRan(st: State, tags: seq<Tag>)
    ensures Ran(st, [], [], tags, tags)
  {
    NoneLostNow(tags, tags);
  }

  lemma {:induction false} RanMore(st: State, done: seq<Op>, op: Op, outs: seq<Outcome>, out: Outcome, tags0: seq<Tag>, tags1: seq<Tag>, tags2: seq<Tag>)
    requires Ran(st, done, outs, tags0, tags1) && !Stuck(Replay(st, done), op)
    requires out == Result(Replay(st, done), op) && LostSome(tags1, tags2, Loses(Replay(st, done), op))
    ensures Ran(st, done + [op], outs + [out], tags0, tags2) && Replay(st, done + [op]) == After(Replay(st, done), op)
  {
    OneMore(st, done, op);
    LostMore(tags0, tags1, tags2, LostIn(st, done), Loses(Replay(st, done), op));
    assert RanBody(st, done + [op], outs + [out], tags0, tags2);
  }

  lemma {:induction false} RanJammed(st: State, done: seq<Op>, op: Op, outs: seq<Outcome>, out: Outcome, tags0: seq<Tag>, tags1: seq<Tag>)
    requires Ran(st, done, outs, tags0, tags1) && Stuck(Replay(st, done), op) && out == Result(Replay(st, done), op)
    ensures Jammed(st, done, op, outs + [out])
  {
    OneMore(st, done, op);
  }

  lemma {:induction false} JammedIsNotFree(st: State, ops: seq<Op>, done: seq<Op>, outs: seq<Outcome>)
    requires done < ops && Jammed(st, done, ops[|done|], outs)
    ensures !Free(st, ops)
  {
    var more := done + [ops[|done|]];
    OneMore(st, done, ops[|done|]);
    assert more <= ops;
    if Free(st, ops) {
      FreeBefore(st, ops, more);
    }
  }

  lemma {:induction false} OneMore(st: State, done: seq<Op>, op: Op)
    ensures Replay(st, done + [op]) == After(Replay(st, done), op)
    ensures Results(st, done + [op]) == Results(st, done) + [Result(Replay(st, done), op)]
    ensures LostIn(st, done + [op]) == LostIn(st, done) + Loses(Replay(st, done), op)
    ensures Free(st, done + [op]) <==> Free(st, done) && !Stuck(Replay(st, done), op)
  {
    assert (done + [op])[..|done|] == done;
  }

  lemma {:induction false} FreeBefore(st: State, ops: seq<Op>, done: seq<Op>)
    requires done <= ops && Free(st, ops)
    ensures Free(st, done)
    decreases |ops|
  {
    if |done| < |ops| {
      FreeBefore(st, ops[..|ops| - 1], done);
    } else {
      assert done == ops;
    }
  }

  /** What a user sees of a newly formatted device of N sectors. */
  function Fresh(n: nat): State {
    State(map[], Short(Formatting.SystemSize(n), n), Formatting.MAX_FILES_IN_DIRECTORY, true)
  }

  /** All sectors in use but N are some file's, and those N are no file's. */
  ghost predicate AllButOwned(fs: FileSystem, n: nat)
    reads fs, fs.vol, fs.vol.freeMap, fs.vol.freeMap.bits
  {
    exists lost: seq<nat> :: |lost| == n && Distinct(lost) && UnownedAre(fs, lost)
  }

  ghost predicate UnownedAre(fs: FileSystem, lost: seq<nat>)
    reads fs, fs.vol, fs.vol.freeMap, fs.vol.freeMap.bits
  {
    && (forall k :: 0 <= k < |lost| ==> lost[k] < |fs.vol.tags|)
    && forall t :: 0 <= t < |fs.vol.tags| ==> (t in lost <==> !fs.MarkedForFile(t))
  }

  /** Formatting, a run, and a restart from the device alone. Unless an operation of the run gets stuck,
      the restart succeeds exactly when sectors never ran out where an index block was due; then the
      files are there again as the run left them, and no sector is in use for nothing but those that
      failed operations lost. */
  method Lifetime(device: array<Block>, cacheSlots: nat, ops: seq<Op>) returns (outs: seq<Outcome>, complete: bool, fs: FileSystem?)
    requires 3 <= device.Length < NO_SECTOR && cacheSlots > 0 && forall op :: op in ops ==> Proper(op)
    requires Formatting.SystemSize(device.Length - 1) <= device.Length - 1
    requires Sectors(Bitmaps.ByteCnt(device.Length - 1)) <= MAX_SECTORS
    modifies device
    ensures var st := Fresh(device.Length - 1);
            && (complete <==> Free(st, ops))
            && (complete ==> outs == Results(st, ops) && (fs != null <==> Replay(st, ops).intact))
            && (fs != null ==> At(fs, Replay(st, ops)) && AllButOwned(fs, LostIn(st, ops)))
  {
    ghost var st := Fresh(device.Length - 1);
    var ok, fs0 := Formatting.Format(device, cacheSlots);
    ghost var tags0 := fs0.vol.tags;
    PrefixFreeList(tags0, Formatting.SystemSize(device.Length - 1));
    assert AtBody(fs0, st);
    ghost var done;
    outs, complete, done := Run(fs0, ops, st);
    fs := null;
    if complete {
      AtFacts(fs0, Replay(st, ops));
      var v;
      ok, v, fs := Formatting.Restart(fs0, cacheSlots);
      if ok {
        assert AtBody(fs, Replay(st, ops));
        SomeLost(fs, tags0, LostIn(st, ops));
      } else {
        fs := null;
      }
    }
  }

  lemma SomeLost(fs: FileSystem, tags0: seq<Tag>, n: nat)
    requires fs.Valid() && LostSome(tags0, fs.vol.tags, n) && NoneLost(tags0)
    ensures AllButOwned(fs, n)
  {
    var lost: seq<nat> :| |lost| == n && LostNow(tags0, fs.vol.tags, lost);
    forall t | 0 <= t < |fs.vol.tags|
      ensures t in lost <==> !fs.MarkedForFile(t)
    {
      LostIsUnowned(fs, tags0, lost, t);
    }
    assert UnownedAre(fs, lost);
  }

  lemma LostIsUnowned(fs: FileSystem, tags0: seq<Tag>, lost: seq<nat>, t: nat)
    requires fs.Valid() && LostNow(tags0, fs.vol.tags, lost) && NoneLost(tags0) && t < |fs.vol.tags|
    ensures t in lost <==> !fs.MarkedForFile(t)
  {
    fs.MarkedIsOwned(t);
    assert t in lost <==> fs.vol.tags[t] == Lost;
  }
}
