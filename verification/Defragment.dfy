/** Fragmentation and defragment (fsutil2.c): every file is saved, removed, and made again in the
    order of the directory's listing. */
module Defragmentation {
  import opened Blocks
  import opened Layout
  import opened Content
  import opened Volumes
  import opened Ownership
  import opened Directories
  import opened Growth
  import opened FileSystems
  import opened FileLists
  import opened Paths
  import Formatting
  import SortSpec
  import Inodes
  import Reserving
  import OpenFiles

  // ----- fragmented_file -----

  /** fragmented_file: some data sector lies before the one that precedes it in the file, or more than
      three sectors behind it. */
  method FragmentedFile(v: Volume, inode: Inode, ghost secs: seq<nat>) returns (fragmented: bool)
    requires v.Ok() && v.Holds(inode, secs)
    modifies v.cache, v.cache.cache, v.cache.device
    ensures v.Ok() && fragmented == Fragmented(secs, Sectors(inode.data.length))
    ensures fragmented <==>
            exists i, j :: 0 <= i < j < Sectors(inode.data.length) && j == i + 1
                           && (At(secs, Pos(j)) < At(secs, Pos(i)) || At(secs, Pos(j)) > At(secs, Pos(i)) + 3)
  {
    var numSectors := Sectors(inode.data.length);
    DataIsOnDevice(v, inode, secs);
    fragmented := false;
    if numSectors <= 1 {
      FragmentedIs(secs, numSectors);
      return;
    }
    var sectors := Inodes.DataSectors(v, inode, secs);
    ghost var n := numSectors;
    for i := 0 to numSectors - 1
      modifies {}
      invariant !fragmented && forall j :: 0 <= j < i ==> !WideGap(secs, j)
    {
      Gaps(i);
      InFile(i + 1, n);
      DifferenceIsWide(sectors[i], sectors[i + 1]);
      if Difference(sectors[i], sectors[i + 1]) > 3 {
        fragmented := true;
        assert WideGap(secs, i);
        break;
      }
    }
    FragmentedIs(secs, numSectors);
  }

  /** The sectors of a file other than sector 0 are on the device, which has no sector -1. */
  lemma DataIsOnDevice(v: Volume, inode: Inode, secs: seq<nat>)
    requires v.Ok() && v.Holds(inode, secs)
    ensures |secs| == Cost(Sectors(inode.data.length))
    ensures forall q :: 0 <= q < |secs| ==> 0 < secs[q] < 0xFFFF_FFFD
  {
    v.MapFileFacts();
    assert Reserving.Open(true) && OpenMap(true);
    forall q | 0 <= q < |secs|
      ensures 0 < secs[q] < 0xFFFF_FFFD
    {
      assert v.tags[secs[q]] == Own(inode.sector, q);
    }
  }

  // ----- What is saved, and what it costs -----

  /** Names for which filesys_open finds a file and not a directory. */
  predicate Plain(name: Name) { name != [] && !Dots(name) }

  /** The files under NAMES. */
  function SaveAll(names: seq<Name>, view: map<Name, seq<Byte>>): (r: seq<Saved>)
    ensures |r| == |names|
  {
    seq(|names|, i requires 0 <= i < |names| => Saved(names[i], if names[i] in view then view[names[i]] else []))
  }

  /** The sectors that files with these contents occupy, inodes included. */
  function TotalCost(saved: seq<Saved>): nat {
    if saved == [] then 0 else 1 + Cost(Sectors(|saved[0].content|)) + TotalCost(saved[1..])
  }

  /** What file_write makes of a buffer: its last byte is forced to NUL. */
  function NulEnded(content: seq<Byte>): (r: seq<Byte>)
    ensures |r| == |content|
  {
    if content == [] then [] else content[|content| - 1 := 0]
  }

  function AllNulEnded(view: map<Name, seq<Byte>>): map<Name, seq<Byte>> {
    map n | n in view :: NulEnded(view[n])
  }

  /** The names and contents once SAVED has been restored through file_write. */
  function Restored(saved: seq<Saved>): map<Name, seq<Byte>> {
    if saved == [] then map[] else
      var last := saved[|saved| - 1];
      Restored(saved[..|saved| - 1])[last.name := NulEnded(last.content)]
  }

  lemma {:induction false} RestoredAll(names: seq<Name>, view: map<Name, seq<Byte>>)
    requires forall n :: n in names ==> n in view
    ensures forall n :: n in Restored(SaveAll(names, view)) <==> n in names
    ensures forall n :: n in names ==> Restored(SaveAll(names, view))[n] == NulEnded(view[n])
  {
    if names != [] {
      var k := |names| - 1;
      RestoredAll(names[..k], view);
      assert SaveAll(names, view)[..k] == SaveAll(names[..k], view);
      assert names == names[..k] + [names[k]];
    }
  }

  // ----- Saving -----

  /** filesys_open and file_open of a plain file. */
  method OpenPlain(fs: FileSystem, name: Name) returns (file: OpenFiles.File)
    requires fs.Valid() && name in Dict(fs.slots) && Plain(name)
    modifies fs.vol.cache, fs.vol.cache.cache, fs.vol.cache.device
    ensures fs.Valid() && name in fs.View()
    ensures fresh(file) && fresh(file.inode) && file.pos == 0 && fs.OpenOn(file.inode, name)
    ensures file.inode.data.length == |fs.View()[name]|
  {
    fs.NameFacts(name);
    var inode := fs.OpenName(name);
    file := new OpenFiles.File(inode);
  }

  /** One turn of the first loop: the file under NAME, read whole, at the front of the list. */
  method SaveOne(fs: FileSystem, name: Name, head: FileInfo?) returns (node: FileInfo)
    requires fs.Valid() && name in Dict(fs.slots) && Plain(name)
    modifies fs.vol.cache, fs.vol.cache.cache, fs.vol.cache.device
    ensures fs.Valid() && name in fs.View()
    ensures fresh(node) && node.name == name && node.content == fs.View()[name] && node.next == head
  {
    var file := OpenPlain(fs, name);
    var content := ReadWhole(fs, file, name);
    node := new FileInfo(name, content, head);
  }

  /** file_read of the whole file into a new buffer. */
  method ReadWhole(fs: FileSystem, file: OpenFiles.File, ghost name: Name) returns (content: seq<Byte>)
    requires fs.Valid() && fs.OpenOn(file.inode, name) && file.pos == 0
    requires name in fs.View() && file.inode.data.length == |fs.View()[name]|
    modifies file`pos, fs.vol.cache, fs.vol.cache.cache, fs.vol.cache.device
    ensures fs.Valid() && name in fs.View() && content == fs.View()[name]
  {
    var size := file.inode.data.length;
    var buffer := new Byte[size](_ => 0);
    ghost var bytes := fs.View()[name];
    var n := file.Read(fs, buffer, size, name);
    assert buffer[..n] == Slice(bytes, 0, |bytes|) == bytes;
    content := buffer[..];
  }

  /** The same, with what it means for the list so far. */
  method SaveNext(fs: FileSystem, name: Name, head: FileInfo?, ghost nodes: seq<FileInfo>, ghost names: seq<Name>)
    returns (head1: FileInfo, ghost nodes1: seq<FileInfo>)
    requires fs.Valid() && name in Dict(fs.slots) && Plain(name) && Listed(head, nodes)
    requires SortSpec.Reversed(SavedIn(nodes)) == SaveAll(names, fs.View())
    modifies fs.vol.cache, fs.vol.cache.cache, fs.vol.cache.device
    ensures fs.Valid() && Listed(head1, nodes1) && nodes1 == [head1] + nodes && fresh(head1)
    ensures SortSpec.Reversed(SavedIn(nodes1)) == SaveAll(names + [name], fs.View())
  {
    var node := SaveOne(fs, name, head);
    OneMoreSaved(nodes, node, names, fs.View());
    head1, nodes1 := node, [node] + nodes;
    assert nodes1[1..] == nodes;
  }

  /** One dir_readdir of a loop over the root directory. */
  method NextFile(fs: FileSystem, dir: Dir, ghost k: nat) returns (more: bool, name: Name, ghost next: nat)
    requires fs.Standing() && dir.inode == fs.root && dir.pos == 36 * k && 1 <= k <= |fs.slots|
    modifies dir, fs.vol.cache, fs.vol.cache.cache, fs.vol.cache.device
    ensures fs.Standing() && dir.pos == 36 * next && k <= next <= |fs.slots| && (more ==> k < next)
    ensures ListingFrom(fs.slots, k) == if more then [name] + ListingFrom(fs.slots, next) else []
    ensures more ==> name in Dict(fs.slots) && Find(fs.slots, name) == next - 1
    ensures more ==> fs.slots[next - 1].inUse && fs.slots[next - 1].name == name
    ensures forall j :: k <= j < (if more then next - 1 else |fs.slots|) ==> !fs.slots[j].inUse
  {
    fs.RootFacts();
    more, name, next := dir.ReadDir(fs.vol, k, fs.files[1].secs, fs.slots);
    ListingNext(fs.slots, k, more, name, next);
    if more {
      UsedIsFound(fs.slots, next - 1, 1);
      FindIsLookup(fs.slots, name, 1);
    }
  }

  /** The first loop of defragment, between turns: NODES hold the files under NAMES, and NAME is
      the next one listed, if there is MORE. */
  ghost predicate Collecting(fs: FileSystem, dir: Dir, head: FileInfo?, nodes: seq<FileInfo>, names: seq<Name>,
                             more: bool, name: Name, k: nat)
    reads fs, fs.vol, dir, nodes
  {
    1 <= k <= |fs.slots| && (more ==> name in Dict(fs.slots)) && CollectingBody(fs, dir, head, nodes, names, more, name, k) == true
  }

  ghost predicate CollectingBody(fs: FileSystem, dir: Dir, head: FileInfo?, nodes: seq<FileInfo>, names: seq<Name>,
                                 more: bool, name: Name, k: nat)
    reads fs, fs.vol, dir, nodes
  {
    && dir.inode == fs.root && dir.pos == 36 * k && 1 <= k <= |fs.slots|
    && Listed(head, nodes)
    && Listing(fs.slots) == names + (if more then [name] + ListingFrom(fs.slots, k) else [])
    && SortSpec.Reversed(SavedIn(nodes)) == SaveAll(names, fs.View())
  }

  /** One turn of it. */
  method CollectNext(fs: FileSystem, dir: Dir, head: FileInfo?, name: Name, ghost nodes: seq<FileInfo>, ghost names: seq<Name>, ghost k: nat)
    returns (head1: FileInfo, more: bool, name1: Name, ghost nodes1: seq<FileInfo>, ghost names1: seq<Name>, ghost next: nat)
    requires fs.Valid() && Collecting(fs, dir, head, nodes, names, true, name, k) && Plain(name)
    modifies dir, fs.vol.cache, fs.vol.cache.cache, fs.vol.cache.device
    ensures fs.Valid() && Collecting(fs, dir, head1, nodes1, names1, more, name1, next)
    ensures nodes1 == [head1] + nodes && fresh(head1) && k <= next && (more ==> k < next)
  {
    head1, nodes1 := SaveNext(fs, name, head, nodes, names);
    names1 := names + [name];
    more, name1, next := NextFile(fs, dir, k);
    NamesMove(names, name, ListingFrom(fs.slots, k));
  }

  /** The first loop of defragment: the list holds every file, the last one listed first. */
  method Collect(fs: FileSystem) returns (head: FileInfo?, ghost nodes: seq<FileInfo>)
    requires fs.Valid() && forall n :: n in Dict(fs.slots) ==> Plain(n)
    modifies fs.vol.cache, fs.vol.cache.cache, fs.vol.cache.device
    ensures fs.Valid()
    ensures Listed(head, nodes) && (forall i :: 0 <= i < |nodes| ==> fresh(nodes[i]))
    ensures SortSpec.Reversed(SavedIn(nodes)) == SaveAll(Listing(fs.slots), fs.View())
  {
    head, nodes := null, [];
    ghost var names: seq<Name>, k: nat := [], 1;
    var dir := new Dir(fs.root);
    var more, name;
    more, name, k := NextFile(fs, dir, 1);
    while more
      invariant fs.Valid() && Collecting(fs, dir, head, nodes, names, more, name, k)
      invariant forall i :: 0 <= i < |nodes| ==> fresh(nodes[i])
      decreases |fs.slots| - k, more
    {
      head, more, name, nodes, names, k := CollectNext(fs, dir, head, name, nodes, names, k);
    }
  }

  lemma OneMoreSaved(nodes: seq<FileInfo>, node: FileInfo, names: seq<Name>, view: map<Name, seq<Byte>>)
    requires SortSpec.Reversed(SavedIn(nodes)) == SaveAll(names, view) && node.name in view && node.content == view[node.name]
    ensures SortSpec.Reversed(SavedIn([node] + nodes)) == SaveAll(names + [node.name], view)
  {
    assert SavedIn([node] + nodes) == [Saved(node.name, node.content)] + SavedIn(nodes);
    assert SaveAll(names + [node.name], view) == SaveAll(names, view) + [Saved(node.name, node.content)];
  }

  // ----- Removing -----

  /** The names still to be removed, the next one first. */
  function Left(slots: seq<Entry>, more: bool, name: Name, k: nat): seq<Name> {
    if more then [name] + ListingFrom(slots, k) else []
  }

  /** The second loop of defragment, between turns, since it started on SLOTS0 and VIEW0 with FREE0 free
      sectors: the entries before the next name are cleared and the others are as they were. */
  ghost predicate Removing(fs: FileSystem, dir: Dir, slots0: seq<Entry>, view0: map<Name, seq<Byte>>, free0: nat,
                           more: bool, name: Name, k: nat)
    reads fs, fs.vol, dir
  {
    && 1 <= k <= |fs.slots| == |slots0| && (more ==> name in Dict(fs.slots) && 1 < k && Find(fs.slots, name) == k - 1)
    && dir.inode == fs.root && dir.pos == 36 * k
    && Remaining(fs.slots, fs.View(), |FreeList(fs.vol.tags)|, slots0, view0, free0, more, name, k)
  }

  /** SLOTS, VIEW and FREE are what is left of SLOTS0, VIEW0 and FREE0 at this point. */
  ghost predicate Remaining(slots: seq<Entry>, view: map<Name, seq<Byte>>, free: nat,
                            slots0: seq<Entry>, view0: map<Name, seq<Byte>>, free0: nat, more: bool, name: Name, k: nat) {
    RemainingBody(slots, view, free, slots0, view0, free0, more, name, k) == true
  }

  ghost predicate RemainingBody(slots: seq<Entry>, view: map<Name, seq<Byte>>, free: nat,
                                slots0: seq<Entry>, view0: map<Name, seq<Byte>>, free0: nat, more: bool, name: Name, k: nat) {
    var left := Left(slots0, more, name, k);
    var low := if more then k - 1 else |slots0|;
    && 1 <= k <= |slots| == |slots0| && 0 <= low
    && (forall j :: 1 <= j < low ==> !slots[j].inUse)
    && (forall j :: low <= j < |slots0| ==> slots[j] == slots0[j])
    && (more ==> ListingFrom(slots0, k - 1) == left)
    && free + TotalCost(SaveAll(left, view0)) == free0 + TotalCost(SaveAll(Listing(slots0), view0))
    && forall n :: n in left ==> n in view0 && n in view && view[n] == view0[n]
  }

  lemma OneMoreRemoved(slots0: seq<Entry>, slots: seq<Entry>, view0: map<Name, seq<Byte>>, name: Name, k: nat,
                       more1: bool, name1: Name, next: nat)
    requires Slots(slots0) && 2 <= k <= next <= |slots0| == |slots|
    requires forall j :: k <= j < |slots0| ==> slots[j] == slots0[j]
    requires ListingFrom(slots, k) == if more1 then [name1] + ListingFrom(slots, next) else []
    requires ListingFrom(slots0, k - 1) == Left(slots0, true, name, k) && name in view0
    ensures ListingFrom(slots0, k) == Left(slots0, more1, name1, next)
    ensures TotalCost(SaveAll(Left(slots0, true, name, k), view0)) ==
            1 + Cost(Sectors(|view0[name]|)) + TotalCost(SaveAll(Left(slots0, more1, name1, next), view0))
    ensures forall n :: n in Left(slots0, more1, name1, next) ==> n != name && n in Left(slots0, true, name, k)
  {
    SameTail(slots0, slots, k);
    SameTail(slots0, slots, next);
    ListingIsKeys(slots0, k - 1);
    var rest := ListingFrom(slots0, k);
    assert SaveAll([name] + rest, view0)[1..] == SaveAll(rest, view0);
    forall i | 0 <= i < |rest|
      ensures rest[i] != name
    {
      assert ([name] + rest)[0] != ([name] + rest)[i + 1];
    }
  }

  /** One turn: fsutil_rm of the file found, and the next dir_readdir. */
  method RemoveNext(fs: FileSystem, dir: Dir, name: Name, ghost slots0: seq<Entry>, ghost view0: map<Name, seq<Byte>>, ghost free0: nat,
                    ghost k: nat)
    returns (more: bool, name1: Name, ghost next: nat)
    requires fs.Valid() && Slots(slots0) && Removing(fs, dir, slots0, view0, free0, true, name, k)
    modifies dir, fs`files, fs`slots, fs.vol`disk, fs.vol`tags, fs.vol.cache, fs.vol.cache.cache, fs.vol.cache.device
    modifies fs.vol.freeMap.bits, fs.root
    ensures fs.Valid() && Removing(fs, dir, slots0, view0, free0, more, name1, next) && k <= next && (more ==> k < next)
    ensures SystemKept(old(fs.vol.tags), fs.vol.tags) && Sector0(fs.vol.disk) == Sector0(old(fs.vol.disk))
  {
    ghost var slots1, view1, free1 := fs.slots, fs.View(), |FreeList(fs.vol.tags)|;
    RemoveFile(fs, name, k - 1);
    more, name1, next := NextFile(fs, dir, k);
    StillRemaining(slots0, view0, free0, slots1, view1, free1, name, k, fs.slots, more, name1, next);
  }

  /** Slot k - 1 was cleared and its file removed; the next name in use is NAME1. */
  lemma {:induction false} StillRemaining(slots0: seq<Entry>, view0: map<Name, seq<Byte>>, free0: nat, slots1: seq<Entry>, view1: map<Name, seq<Byte>>,
                       free1: nat, name: Name, k: nat, slots2: seq<Entry>, more: bool, name1: Name, next: nat)
    requires Slots(slots0) && 2 <= k <= next <= |slots0| == |slots1|
    requires Remaining(slots1, view1, free1, slots0, view0, free0, true, name, k)
    requires slots2 == slots1[k - 1 := slots1[k - 1].(inUse := false)]
    requires ListingFrom(slots2, k) == if more then [name1] + ListingFrom(slots2, next) else []
    requires more ==> k < next && slots2[next - 1].inUse && slots2[next - 1].name == name1
    requires forall j :: k <= j < (if more then next - 1 else |slots2|) ==> !slots2[j].inUse
    ensures name in view0 && name in view1 && view1[name] == view0[name]
    ensures Remaining(slots2, view1 - {name}, free1 + 1 + Cost(Sectors(|view0[name]|)), slots0, view0, free0, more, name1, next)
  {
    assert name in Left(slots0, true, name, k);
    OneMoreRemoved(slots0, slots2, view0, name, k, more, name1, next);
    ClearedTo(slots0, slots1, slots2, k, if more then next - 1 else |slots0|);
    var left := Left(slots0, more, name1, next);
    forall n | n in left
      ensures n in view0 && n in view1 - {name} && (view1 - {name})[n] == view0[n]
    {
      assert n in Left(slots0, true, name, k);
    }
    assert RemainingBody(slots2, view1 - {name}, free1 + 1 + Cost(Sectors(|view0[name]|)), slots0, view0, free0, more, name1, next);
  }

  /** The entries before LOW are cleared and the others are as they were. */
  lemma ClearedTo(slots0: seq<Entry>, slots1: seq<Entry>, slots2: seq<Entry>, k: nat, low: nat)
    requires 2 <= k <= |slots0| == |slots1| && slots2 == slots1[k - 1 := slots1[k - 1].(inUse := false)]
    requires forall j :: 1 <= j < k - 1 ==> !slots1[j].inUse
    requires forall j :: k - 1 <= j < |slots0| ==> slots1[j] == slots0[j]
    requires k <= low <= |slots0| && forall j :: k <= j < low ==> !slots2[j].inUse
    ensures forall j :: 1 <= j < low ==> !slots2[j].inUse
    ensures forall j :: low <= j < |slots0| ==> slots2[j] == slots0[j]
  {
  }

  /** fsutil_rm of the file whose entry is at slot j. */
  method RemoveFile(fs: FileSystem, name: Name, ghost j: nat)
    requires fs.Valid() && name in Dict(fs.slots) && Find(fs.slots, name) == j < |fs.slots|
    modifies fs`files, fs`slots, fs.vol`disk, fs.vol`tags, fs.vol.cache, fs.vol.cache.cache, fs.vol.cache.device
    modifies fs.vol.freeMap.bits, fs.root
    ensures fs.Valid() && fs.slots == old(fs.slots)[j := old(fs.slots)[j].(inUse := false)]
    ensures fs.View() == old(fs.View()) - {name} && name in old(fs.View())
    ensures |FreeList(fs.vol.tags)| == |FreeList(old(fs.vol.tags))| + 1 + Cost(Sectors(|old(fs.View())[name]|))
    ensures SystemKept(old(fs.vol.tags), fs.vol.tags) && Sector0(fs.vol.disk) == Sector0(old(fs.vol.disk))
  {
    fs.NameFacts(name);
    var ok := fs.Remove(name);
  }

  /** The second loop of defragment: every file is removed and its sectors are free again. */
  method RemoveAll(fs: FileSystem)
    requires fs.Valid()
    modifies fs`files, fs`slots, fs.vol`disk, fs.vol`tags, fs.vol.cache, fs.vol.cache.cache, fs.vol.cache.device
    modifies fs.vol.freeMap.bits, fs.root
    ensures fs.Valid() && SystemKept(old(fs.vol.tags), fs.vol.tags) && Sector0(fs.vol.disk) == Sector0(old(fs.vol.disk))
    ensures |fs.slots| == |old(fs.slots)| && forall j :: 1 <= j < |fs.slots| ==> !fs.slots[j].inUse
    ensures |FreeList(fs.vol.tags)| == |FreeList(old(fs.vol.tags))| + TotalCost(SaveAll(Listing(old(fs.slots)), old(fs.View())))
  {
    ghost var slots0, view0, free0 := fs.slots, fs.View(), |FreeList(fs.vol.tags)|;
    fs.RootFacts();
    var dir := new Dir(fs.root);
    var more, name;
    ghost var k;
    more, name, k := NextFile(fs, dir, 1);
    StartRemoving(fs, dir, more, name, k);
    while more
      invariant fs.Valid() && Removing(fs, dir, slots0, view0, free0, more, name, k)
      invariant SystemKept(old(fs.vol.tags), fs.vol.tags) && Sector0(fs.vol.disk) == Sector0(old(fs.vol.disk))
      decreases |slots0| - k, more
    {
      ghost var tags1 := fs.vol.tags;
      more, name, k := RemoveNext(fs, dir, name, slots0, view0, free0, k);
      SystemKeptMore(old(fs.vol.tags), tags1, fs.vol.tags);
    }
  }

  lemma {:induction false} StartRemoving(fs: FileSystem, dir: Dir, more: bool, name: Name, k: nat)
    requires fs.Valid() && dir.inode == fs.root && dir.pos == 36 * k && 1 <= k <= |fs.slots|
    requires Listing(fs.slots) == if more then [name] + ListingFrom(fs.slots, k) else []
    requires more ==> 1 < k && name in Dict(fs.slots) && Find(fs.slots, name) == k - 1
    requires more ==> fs.slots[k - 1].inUse && fs.slots[k - 1].name == name
    requires forall j :: 1 <= j < (if more then k - 1 else |fs.slots|) ==> !fs.slots[j].inUse
    ensures Removing(fs, dir, fs.slots, fs.View(), |FreeList(fs.vol.tags)|, more, name, k)
  {
    ListedInView(fs);
    assert ListingFrom(fs.slots, 1) == Left(fs.slots, more, name, k);
  }

  lemma ListedInView(fs: FileSystem)
    requires fs.Valid()
    ensures forall n :: n in Listing(fs.slots) ==> n in fs.View()
  {
    fs.RootFacts();
    ListingIsKeys(fs.slots, 1);
    forall n | n in Listing(fs.slots)
      ensures n in fs.View()
    {
      fs.NameFacts(n);
    }
  }

  // ----- Restoring -----

  /** Contents that file_write leaves alone. */
  predicate EndsWithNul(content: seq<Byte>) { content != [] && content[|content| - 1] == 0 }

  /** Forcing the last byte to NUL changes nothing exactly when every file ends with one. */
  lemma NulEndedAlready(view: map<Name, seq<Byte>>)
    requires forall n :: n in view ==> view[n] != []
    ensures AllNulEnded(view) == view <==> forall n :: n in view ==> EndsWithNul(view[n])
  {
    if AllNulEnded(view) == view {
      forall n | n in view
        ensures EndsWithNul(view[n])
      {
        assert AllNulEnded(view)[n] == NulEnded(view[n]);
      }
    }
    if forall n :: n in view ==> EndsWithNul(view[n]) {
      forall n | n in view
        ensures AllNulEnded(view)[n] == view[n]
      {
        assert EndsWithNul(view[n]);
      }
    }
  }

  /** A whole file written over. */
  lemma WrittenOver(data: seq<Byte>, content: seq<Byte>, buffer: seq<Byte>)
    requires |data| == |content| && content != [] && buffer == content[|content| - 1 := 0]
    ensures Spliced(data, 0, buffer[..|content|]) == NulEnded(content)
  {
  }

  /** fsutil_write of the whole file under NAME, which has just been created with this size. */
  method WriteBack(fs: FileSystem, name: Name, content: seq<Byte>)
    requires fs.Valid() && Plain(name) && name in fs.View() && |fs.View()[name]| == |content| && content != []
    modifies fs`files, fs`slots, fs.vol`disk, fs.vol`tags, fs.vol.cache, fs.vol.cache.cache, fs.vol.cache.device
    modifies fs.vol.freeMap.bits
    ensures fs.Valid() && fs.View() == old(fs.View())[name := NulEnded(content)]
    ensures fs.slots == old(fs.slots) && fs.files == old(fs.files) && fs.vol.tags == old(fs.vol.tags)
    ensures Sector0(fs.vol.disk) == Sector0(old(fs.vol.disk))
  {
    ghost var data := fs.View()[name];
    fs.NameFacts(name);
    var file := OpenPlain(fs, name);
    var buffer := new Byte[|content|](i requires 0 <= i < |content| => content[i]);
    assert buffer[..] == content;
    var written := file.Write(fs, buffer, |content|, name);
    WrittenOver(data, content, buffer[..]);
  }

  /** A saved file that can be made again. */
  predicate Restorable(s: Saved) {
    && 0 < |s.name| <= NAME_MAX && 0 !in s.name && SLASH !in s.name && Plain(s.name)
    && s.content != [] && Sectors(|s.content|) <= MAX_SECTORS
  }

  /** How many of the sectors for plain files the first j saved files take. */
  function Start(saved: seq<Saved>, j: nat): nat
    requires j <= |saved|
  {
    if j == 0 then 0 else Start(saved, j - 1) + 1 + Cost(Sectors(|saved[j - 1].content|))
  }

  /** Where saved file j goes when PLAIN are the sectors for plain files: right after its inode,
      which follows the sectors of the file before it. */
  function Placed(plain: seq<nat>, saved: seq<Saved>, j: nat): seq<nat>
    requires j < |saved|
  {
    var lo, n := Start(saved, j) + 1, Cost(Sectors(|saved[j].content|));
    if lo + n <= |plain| then Part(plain, lo, n) else []
  }

  /** A file made while the free sectors are those of PLAIN from O on takes the next of them. */
  lemma MadePlaced(disk0: seq<Block>, disk1: seq<Block>, tags0: seq<Tag>, tags1: seq<Tag>, files0: Files, files1: Files,
                   id: nat, size: nat, plain: seq<nat>, o: nat)
    requires Made(disk0, disk1, tags0, tags1, files0, files1, id, size)
    requires o <= |plain| && FreeList(tags0) == Part(plain, o, |plain| - o)
    ensures var o1 := o + 1 + Cost(Sectors(size));
            && id in files1 && o1 <= |plain|
            && files1[id].secs == Part(plain, o + 1, Cost(Sectors(size)))
            && FreeList(tags1) == Part(plain, o1, |plain| - o1)
  {
    FirstFree(tags0);
    TakeFirstFree(tags0, id, Own(id, -1));
    GrewPrefix(tags0[id := Own(id, -1)], tags1, id, [], files1[id].secs);
  }

  lemma {:induction false} OffsetIsCost(saved: seq<Saved>, j: nat)
    requires j <= |saved|
    ensures Start(saved, j) + TotalCost(saved[j..]) == TotalCost(saved)
  {
    if j > 0 {
      OffsetIsCost(saved, j - 1);
      assert saved[j - 1..][1..] == saved[j..];
    } else {
      assert saved[0..] == saved;
    }
  }

  lemma {:induction false} NotRestored(saved: seq<Saved>, name: Name)
    requires forall j :: 0 <= j < |saved| ==> saved[j].name != name
    ensures name !in Restored(saved)
  {
    if saved != [] {
      NotRestored(saved[..|saved| - 1], name);
    }
  }

  ghost predicate DistinctNames(saved: seq<Saved>) {
    forall i, j :: 0 <= i < j < |saved| ==> saved[i].name != saved[j].name
  }

  /** The last loop of defragment after i files, with FREE0 sectors left over at the end: the first
      slots name them in order, and each lies where PLAIN has it. */
  ghost predicate Restoring(fs: FileSystem, saved: seq<Saved>, i: nat, free0: nat, plain: seq<nat>)
    reads fs, fs.vol
  {
    i <= |saved| < |fs.slots| && Regained(fs.slots, fs.View(), fs.vol.tags, fs.files, saved, i, free0, plain)
  }

  ghost predicate Regained(slots: seq<Entry>, view: map<Name, seq<Byte>>, tags: seq<Tag>, files: Files,
                           saved: seq<Saved>, i: nat, free0: nat, plain: seq<nat>) {
    RegainedBody(slots, view, tags, files, saved, i, free0, plain) == true
  }

  ghost predicate RegainedBody(slots: seq<Entry>, view: map<Name, seq<Byte>>, tags: seq<Tag>, files: Files,
                               saved: seq<Saved>, i: nat, free0: nat, plain: seq<nat>) {
    && i <= |saved| < |slots|
    && Filled(slots, saved, i) && Lying(slots, files, saved, plain, i)
    && view == Restored(saved[..i])
    && |FreeList(tags)| == free0 + TotalCost(saved[i..])
    && Start(saved, i) <= |plain| && FreeList(tags) == Part(plain, Start(saved, i), |plain| - Start(saved, i))
  }

  /** The first i slots after the parent's, and no others, are in use, for the first i saved files. */
  ghost predicate Filled(slots: seq<Entry>, saved: seq<Saved>, i: nat) {
    FilledBody(slots, saved, i) == true
  }

  ghost predicate FilledBody(slots: seq<Entry>, saved: seq<Saved>, i: nat) {
    && i <= |saved|
    && (forall j :: 1 <= j < |slots| ==> (slots[j].inUse <==> j <= i))
    && (forall j :: 1 <= j <= i && j < |slots| ==> slots[j].name == saved[j - 1].name)
  }

  ghost predicate Lying(slots: seq<Entry>, files: Files, saved: seq<Saved>, plain: seq<nat>, i: nat) {
    LyingBody(slots, files, saved, plain, i) == true
  }

  ghost predicate LyingBody(slots: seq<Entry>, files: Files, saved: seq<Saved>, plain: seq<nat>, i: nat) {
    forall j :: 0 <= j < i ==> LiesAt(slots, files, saved, plain, j)
  }

  /** Saved file j is the file of slot j + 1 and lies where PLAIN has it. */
  ghost predicate LiesAt(slots: seq<Entry>, files: Files, saved: seq<Saved>, plain: seq<nat>, j: nat) {
    && j < |saved| && j + 1 < |slots| && slots[j + 1].sector as nat in files
    && files[slots[j + 1].sector as nat].secs == Placed(plain, saved, j)
  }

  /** What is known before the next file is made. */
  lemma RestoreNext(fs: FileSystem, saved: seq<Saved>, i: nat, free0: nat, plain: seq<nat>)
    requires fs.Valid() && Restoring(fs, saved, i, free0, plain) && i < |saved| && DistinctNames(saved)
    requires Restorable(saved[i])
    ensures UnusedFrom(fs.slots, 0) == i + 1 && saved[i].name !in Dict(fs.slots) && 1 in fs.files
    ensures fs.RoomFor(|saved[i].content|) && LastName(saved[i].name) == saved[i].name
    ensures |saved[i].content| < 0x8000_0000
  {
    NameIsToken(saved[i].name);
    fs.RootFacts();
    fs.NameFacts(saved[i].name);
    NotRestored(saved[..i], saved[i].name);
    var u := UnusedFrom(fs.slots, 0);
    assert !fs.slots[i + 1].inUse && fs.slots[0].inUse;
    assert u == i + 1;
    assert |FileBytes(fs.vol.disk, fs.files[1])| == |DirImage(fs.slots)|;
    assert saved[i..][0] == saved[i];
  }

  /** What holds once the next file has been made and its contents are written back. */
  lemma {:induction false} OneMoreRegained(disk0: seq<Block>, disk1: seq<Block>, tags0: seq<Tag>, tags1: seq<Tag>, files0: Files, files1: Files,
                                           slots0: seq<Entry>, slots1: seq<Entry>, id: nat, view0: map<Name, seq<Byte>>,
                                           saved: seq<Saved>, i: nat, free0: nat, plain: seq<nat>)
    requires Regained(slots0, view0, tags0, files0, saved, i, free0, plain) && i < |saved| && UnusedFrom(slots0, 0) == i + 1
    requires Created(disk0, disk1, tags0, tags1, files0, files1, slots0, slots1, id, |saved[i].content|, saved[i].name)
    ensures var blank := seq(|saved[i].content|, _ => 0);
            Regained(slots1, view0[saved[i].name := blank][saved[i].name := NulEnded(saved[i].content)], tags1, files1,
                     saved, i + 1, free0, plain)
    ensures SystemKept(tags0, tags1)
  {
    var size := |saved[i].content|;
    MadeCount(disk0, disk1, tags0, tags1, files0, files1, id, size);
    MadePlaced(disk0, disk1, tags0, tags1, files0, files1, id, size, plain, Start(saved, i));
    CostNext(saved, i);
    RestoredNext(saved, i, seq(size, _ => 0));
    OneMoreLies(slots0, slots1, files0, files1, saved, plain, i, id);
    OneMoreSlot(slots0, slots1, saved, i, id);
    var view1 := view0[saved[i].name := seq(size, _ => 0)][saved[i].name := NulEnded(saved[i].content)];
    assert view1 == Restored(saved[..i + 1]);
    assert RegainedBody(slots1, view1, tags1, files1, saved, i + 1, free0, plain);
  }

  lemma {:induction false} CostNext(saved: seq<Saved>, i: nat)
    requires i < |saved|
    ensures Start(saved, i + 1) == Start(saved, i) + 1 + Cost(Sectors(|saved[i].content|))
    ensures TotalCost(saved[i..]) == 1 + Cost(Sectors(|saved[i].content|)) + TotalCost(saved[i + 1..])
  {
    assert saved[i..][0] == saved[i] && saved[i..][1..] == saved[i + 1..];
  }

  lemma OneMoreSlot(slots0: seq<Entry>, slots1: seq<Entry>, saved: seq<Saved>, i: nat, id: Word)
    requires i < |saved| && i + 1 < |slots0| == |slots1| && slots1 == slots0[i + 1 := Entry(id, saved[i].name, true)]
    requires Filled(slots0, saved, i)
    ensures Filled(slots1, saved, i + 1)
  {
  }

  lemma OneMoreLies(slots0: seq<Entry>, slots1: seq<Entry>, files0: Files, files1: Files, saved: seq<Saved>, plain: seq<nat>, i: nat, id: Word)
    requires i < |saved| && i + 1 < |slots0| == |slots1| && slots1 == slots0[i + 1 := Entry(id, saved[i].name, true)]
    requires id !in files0 && id as nat in files1 && files1 == files0[id as nat := files1[id as nat]]
    requires files1[id as nat].secs == Placed(plain, saved, i)
    requires Lying(slots0, files0, saved, plain, i)
    ensures Lying(slots1, files1, saved, plain, i + 1)
  {
    forall j | 0 <= j < i
      ensures LiesAt(slots1, files1, saved, plain, j)
    {
      assert LiesAt(slots0, files0, saved, plain, j);
    }
  }

  lemma {:induction false} RestoredNext(saved: seq<Saved>, i: nat, blank: seq<Byte>)
    requires i < |saved|
    ensures Restored(saved[..i])[saved[i].name := blank][saved[i].name := NulEnded(saved[i].content)] == Restored(saved[..i + 1])
  {
    assert saved[..i + 1][..i] == saved[..i];
  }

  /** One turn of the last loop: fsutil_create and fsutil_write. */
  method RestoreOne(fs: FileSystem, name: Name, content: seq<Byte>, ghost saved: seq<Saved>, ghost i: nat, ghost free0: nat,
                    ghost plain: seq<nat>)
    requires fs.Valid() && Restoring(fs, saved, i, free0, plain) && i < |saved| && DistinctNames(saved)
    requires Restorable(saved[i]) && saved[i] == Saved(name, content)
    modifies fs`files, fs`slots, fs.vol`disk, fs.vol`tags, fs.vol.cache, fs.vol.cache.cache, fs.vol.cache.device
    modifies fs.vol.freeMap.bits, fs.root
    ensures fs.Valid() && Restoring(fs, saved, i + 1, free0, plain) && Sector0(fs.vol.disk) == Sector0(old(fs.vol.disk))
    ensures SystemKept(old(fs.vol.tags), fs.vol.tags)
  {
    ghost var disk0, tags0, files0, slots0, view0 := fs.vol.disk, fs.vol.tags, fs.files, fs.slots, fs.View();
    RestoreNext(fs, saved, i, free0, plain);
    var ok;
    ghost var id;
    ok, id := fs.Create(name, |content|);
    OneMoreRegained(disk0, fs.vol.disk, tags0, fs.vol.tags, files0, fs.files, slots0, fs.slots, id, view0, saved, i, free0, plain);
    WriteBack(fs, name, content);
  }

  /** The last loop of defragment, over the reversed list. */
  method RestoreAll(fs: FileSystem, head: FileInfo?, ghost nodes: seq<FileInfo>, ghost free0: nat, ghost plain: seq<nat>)
    requires fs.Valid() && Chain(head, nodes) && Restoring(fs, SavedIn(nodes), 0, free0, plain)
    requires DistinctNames(SavedIn(nodes)) && forall s :: s in SavedIn(nodes) ==> Restorable(s)
    modifies fs`files, fs`slots, fs.vol`disk, fs.vol`tags, fs.vol.cache, fs.vol.cache.cache, fs.vol.cache.device
    modifies fs.vol.freeMap.bits, fs.root
    ensures fs.Valid() && Restoring(fs, SavedIn(nodes), |nodes|, free0, plain)
    ensures Sector0(fs.vol.disk) == Sector0(old(fs.vol.disk)) && SystemKept(old(fs.vol.tags), fs.vol.tags)
  {
    var current := head;
    ghost var i: nat := 0;
    ghost var saved := SavedIn(nodes);
    while current != null
      invariant i <= |nodes| && Chain(current, nodes[i..])
      invariant fs.Valid() && Restoring(fs, saved, i, free0, plain) && Sector0(fs.vol.disk) == Sector0(old(fs.vol.disk))
      invariant SystemKept(old(fs.vol.tags), fs.vol.tags)
      decreases |nodes| - i
    {
      ghost var tags1 := fs.vol.tags;
      current := RestoreNode(fs, current, nodes, i, free0, plain);
      SystemKeptMore(old(fs.vol.tags), tags1, fs.vol.tags);
      i := i + 1;
    }
  }

  /** One turn of it, at node i of the list. */
  method RestoreNode(fs: FileSystem, current: FileInfo, ghost nodes: seq<FileInfo>, ghost i: nat, ghost free0: nat, ghost plain: seq<nat>)
    returns (next: FileInfo?)
    requires i <= |nodes| && Chain(current, nodes[i..]) && fs.Valid() && Restoring(fs, SavedIn(nodes), i, free0, plain)
    requires DistinctNames(SavedIn(nodes)) && forall s :: s in SavedIn(nodes) ==> Restorable(s)
    modifies fs`files, fs`slots, fs.vol`disk, fs.vol`tags, fs.vol.cache, fs.vol.cache.cache, fs.vol.cache.device
    modifies fs.vol.freeMap.bits, fs.root
    ensures i < |nodes| && Chain(next, nodes[i + 1..]) && fs.Valid() && Restoring(fs, SavedIn(nodes), i + 1, free0, plain)
    ensures Sector0(fs.vol.disk) == Sector0(old(fs.vol.disk)) && SystemKept(old(fs.vol.tags), fs.vol.tags)
  {
    assert current == nodes[i] && SavedIn(nodes)[i] in SavedIn(nodes);
    assert nodes[i..][1..] == nodes[i + 1..];
    RestoreOne(fs, current.name, current.content, SavedIn(nodes), i, free0, plain);
    next := current.next;
  }

  lemma {:induction false} ListingFits(slots: seq<Entry>, k: nat)
    requires k <= |slots|
    ensures |ListingFrom(slots, k)| <= |slots| - k
    decreases |slots| - k
  {
    if k < |slots| {
      ListingFits(slots, k + 1);
    }
  }

  lemma {:induction false} ListingFilled(slots: seq<Entry>, names: seq<Name>, k: nat)
    requires 1 <= k <= |slots| && |names| < |slots|
    requires forall j :: 1 <= j < |slots| ==> (slots[j].inUse <==> j <= |names|)
    requires forall j :: 1 <= j <= |names| ==> slots[j].name == names[j - 1]
    ensures ListingFrom(slots, k) == if k <= |names| then names[k - 1..] else []
    decreases |slots| - k
  {
    if k < |slots| {
      ListingFilled(slots, names, k + 1);
    }
  }

  lemma SavedAre(names: seq<Name>, view: map<Name, seq<Byte>>)
    requires forall n :: n in names <==> n in view
    requires forall i, j :: 0 <= i < j < |names| ==> names[i] != names[j]
    requires forall n :: n in view ==> Restorable(Saved(n, view[n]))
    ensures DistinctNames(SaveAll(names, view)) && Restored(SaveAll(names, view)) == AllNulEnded(view)
    ensures forall s :: s in SaveAll(names, view) ==> Restorable(s)
  {
    RestoredAll(names, view);
  }

  lemma NameRestorable(fs: FileSystem, n: Name)
    requires fs.Valid() && n in fs.View() && Plain(n) && fs.View()[n] != []
    ensures Restorable(Saved(n, fs.View()[n]))
  {
    fs.RootFacts();
    fs.NameFacts(n);
    FindIsLookup(fs.slots, n, 1);
  }

  /** The saved files are the whole view, each can be made again, and the directory has slots for them. */
  lemma SavedFiles(fs: FileSystem)
    requires fs.Valid() && forall n :: n in fs.View() ==> Plain(n) && fs.View()[n] != []
    ensures var saved := SaveAll(Listing(fs.slots), fs.View());
            && |saved| < |fs.slots| && DistinctNames(saved) && (forall s :: s in saved ==> Restorable(s))
            && Restored(saved) == AllNulEnded(fs.View())
  {
    var names, view := Listing(fs.slots), fs.View();
    fs.RootFacts();
    ListingFits(fs.slots, 1);
    ListingIsKeys(fs.slots, 1);
    forall n
      ensures n in view <==> n in names
    {
      fs.NameFacts(n);
    }
    forall n | n in view
      ensures Restorable(Saved(n, view[n]))
    {
      NameRestorable(fs, n);
    }
    SavedAre(names, view);
  }

  // ----- defragment -----

  /** No plain file is fragmented. */
  ghost predicate Whole(fs: FileSystem)
    reads fs, fs.vol
  {
    forall n :: n in Dict(fs.slots) && n in fs.View() && Dict(fs.slots)[n] as nat in fs.files ==>
      !Fragmented(fs.files[Dict(fs.slots)[n] as nat].secs, Sectors(|fs.View()[n]|))
  }

  /** Of the sectors PLAIN, the first n are in use and the others are free. */
  ghost predicate InUse(tags: seq<Tag>, plain: seq<nat>, n: nat) {
    n <= |plain| && FreeList(tags) == Part(plain, n, |plain| - n)
  }

  /** The files of SAVED lie one after the other in the sectors PLAIN. */
  ghost predicate LaidOut(fs: FileSystem, saved: seq<Saved>, plain: seq<nat>)
    reads fs
  {
    forall j :: 0 <= j < |saved| ==> LaidOutAt(fs, saved, plain, j)
  }

  ghost predicate LaidOutAt(fs: FileSystem, saved: seq<Saved>, plain: seq<nat>, j: nat)
    reads fs
  {
    && j < |saved| && saved[j].name in Dict(fs.slots) && Dict(fs.slots)[saved[j].name] as nat in fs.files
    && fs.files[Dict(fs.slots)[saved[j].name] as nat].secs == Placed(plain, saved, j)
  }

  /** Where saved file j comes to lie, it is fragmented. */
  ghost predicate BrokenAt(saved: seq<Saved>, plain: seq<nat>, j: nat)
    requires j < |saved|
  {
    Fragmented(Placed(plain, saved, j), Sectors(|saved[j].content|))
  }

  /** After everything was removed, the restoring starts with an empty directory. */
  lemma {:induction false} StartRestoring(fs: FileSystem, saved: seq<Saved>, free0: nat)
    requires fs.Valid() && |saved| < |fs.slots| && forall j :: 1 <= j < |fs.slots| ==> !fs.slots[j].inUse
    requires |FreeList(fs.vol.tags)| == free0 + TotalCost(saved)
    ensures Restoring(fs, saved, 0, free0, PlainSectors(fs.vol.tags))
  {
    Formatting.NoneInUse(fs.slots, 1);
    fs.NoFilesLeft(0);
    assert saved[..0] == [] && saved[0..] == saved;
  }

  lemma {:induction false} RegainedInUse(slots: seq<Entry>, view: map<Name, seq<Byte>>, tags: seq<Tag>, files: Files,
                                         saved: seq<Saved>, free0: nat, plain: seq<nat>)
    requires Regained(slots, view, tags, files, saved, |saved|, free0, plain)
    ensures InUse(tags, plain, TotalCost(saved))
  {
    OffsetIsCost(saved, |saved|);
  }

  /** At the end of it, names, contents, listing and free space are as they were, and every file lies
      in its place. */
  lemma {:induction false} AllRestored(fs: FileSystem, names: seq<Name>, view: map<Name, seq<Byte>>, free0: nat, plain: seq<nat>)
    requires fs.Valid() && Restored(SaveAll(names, view)) == AllNulEnded(view)
    requires Restoring(fs, SaveAll(names, view), |names|, free0, plain)
    ensures fs.View() == AllNulEnded(view) && Listing(fs.slots) == names && |FreeList(fs.vol.tags)| == free0
    ensures LaidOut(fs, SaveAll(names, view), plain) && InUse(fs.vol.tags, plain, TotalCost(SaveAll(names, view)))
  {
    var saved := SaveAll(names, view);
    RegainedInUse(fs.slots, fs.View(), fs.vol.tags, fs.files, saved, free0, plain);
    assert saved[..|names|] == saved && saved[|names|..] == [];
    ListingFilled(fs.slots, names, 1);
    LyingIsLaidOut(fs, saved, plain);
  }

  lemma {:induction false} LyingIsLaidOut(fs: FileSystem, saved: seq<Saved>, plain: seq<nat>)
    requires fs.Valid() && |saved| < |fs.slots|
    requires Filled(fs.slots, saved, |saved|) && Lying(fs.slots, fs.files, saved, plain, |saved|)
    ensures LaidOut(fs, saved, plain)
  {
    fs.RootFacts();
    forall j | 0 <= j < |saved|
      ensures LaidOutAt(fs, saved, plain, j)
    {
      assert LiesAt(fs.slots, fs.files, saved, plain, j);
      UsedIsFound(fs.slots, j + 1, 1);
      FindIsLookup(fs.slots, saved[j].name, 1);
    }
  }

  lemma PlaceOf(fs: FileSystem, names: seq<Name>, view: map<Name, seq<Byte>>, plain: seq<nat>, j: nat)
    requires fs.Valid() && LaidOut(fs, SaveAll(names, view), plain) && fs.View() == AllNulEnded(view) && j < |names|
    ensures names[j] in Dict(fs.slots) && names[j] in fs.View() && Dict(fs.slots)[names[j]] as nat in fs.files
    ensures |Placed(plain, SaveAll(names, view), j)| == Cost(Sectors(|SaveAll(names, view)[j].content|))
    ensures BrokenAt(SaveAll(names, view), plain, j) <==>
              Fragmented(fs.files[Dict(fs.slots)[names[j]] as nat].secs, Sectors(|fs.View()[names[j]]|))
  {
    assert LaidOutAt(fs, SaveAll(names, view), plain, j);
    fs.NameFacts(names[j]);
  }

  /** Whether a file is fragmented can be read off the places. */
  lemma WholeIsUnbroken(fs: FileSystem, names: seq<Name>, view: map<Name, seq<Byte>>, plain: seq<nat>)
    requires fs.Valid() && LaidOut(fs, SaveAll(names, view), plain) && fs.View() == AllNulEnded(view)
    requires forall n :: n in Dict(fs.slots) ==> n in names
    ensures Whole(fs) <==> forall j :: 0 <= j < |names| ==> !BrokenAt(SaveAll(names, view), plain, j)
    ensures forall j :: 0 <= j < |names| ==> |Placed(plain, SaveAll(names, view), j)| == Cost(Sectors(|SaveAll(names, view)[j].content|))
  {
    var saved := SaveAll(names, view);
    forall j | 0 <= j < |names|
      ensures |Placed(plain, saved, j)| == Cost(Sectors(|saved[j].content|))
      ensures Whole(fs) ==> !BrokenAt(saved, plain, j)
    {
      PlaceOf(fs, names, view, plain, j);
    }
    if forall j :: 0 <= j < |names| ==> !BrokenAt(saved, plain, j) {
      forall n | n in Dict(fs.slots) && n in fs.View() && Dict(fs.slots)[n] as nat in fs.files
        ensures !Fragmented(fs.files[Dict(fs.slots)[n] as nat].secs, Sectors(|fs.View()[n]|))
      {
        var j :| 0 <= j < |names| && names[j] == n;
        PlaceOf(fs, names, view, plain, j);
      }
    }
  }

  lemma AllListed(fs: FileSystem)
    requires fs.Valid()
    ensures forall n :: n in Dict(fs.slots) <==> n in Listing(fs.slots)
  {
    fs.RootFacts();
    ListingIsKeys(fs.slots, 1);
  }

  /** In consecutive sectors no place is broken. */
  lemma RunIsUnbroken(saved: seq<Saved>, plain: seq<nat>, m: nat, j: nat)
    requires j < |saved| && plain == seq(|plain|, k => m + k)
    requires |Placed(plain, saved, j)| == Cost(Sectors(|saved[j].content|))
    ensures !BrokenAt(saved, plain, j)
  {
    CompactIsWhole(Placed(plain, saved, j), Sectors(|saved[j].content|));
  }

  /** The last part of defragment, from the empty directory and the list in listing order. */
  method RestoreSaved(fs: FileSystem, head: FileInfo?, ghost nodes: seq<FileInfo>, ghost names: seq<Name>,
                      ghost view: map<Name, seq<Byte>>, ghost free0: nat)
    requires fs.Valid() && Chain(head, nodes) && SavedIn(nodes) == SaveAll(names, view)
             && Restored(SaveAll(names, view)) == AllNulEnded(view)
    requires DistinctNames(SavedIn(nodes)) && forall s :: s in SavedIn(nodes) ==> Restorable(s)
    requires |names| < |fs.slots| && forall j :: 1 <= j < |fs.slots| ==> !fs.slots[j].inUse
    requires |FreeList(fs.vol.tags)| == free0 + TotalCost(SavedIn(nodes))
    modifies fs`files, fs`slots, fs.vol`disk, fs.vol`tags, fs.vol.cache, fs.vol.cache.cache, fs.vol.cache.device
    modifies fs.vol.freeMap.bits, fs.root
    ensures fs.Valid() && fs.View() == AllNulEnded(view) && Listing(fs.slots) == names && |FreeList(fs.vol.tags)| == free0
    ensures LaidOut(fs, SaveAll(names, view), PlainSectors(old(fs.vol.tags))) && Sector0(fs.vol.disk) == Sector0(old(fs.vol.disk))
    ensures InUse(fs.vol.tags, PlainSectors(old(fs.vol.tags)), TotalCost(SaveAll(names, view)))
    ensures SystemKept(old(fs.vol.tags), fs.vol.tags)
  {
    ghost var plain := PlainSectors(fs.vol.tags);
    StartRestoring(fs, SavedIn(nodes), free0);
    RestoreAll(fs, head, nodes, free0, plain);
    AllRestored(fs, names, view, free0, plain);
  }

  lemma SavedReversed(nodes: seq<FileInfo>)
    ensures SavedIn(SortSpec.Reversed(nodes)) == SortSpec.Reversed(SavedIn(nodes))
  {
  }

  /** The first part of defragment: the list in listing order, and the directory emptied. */
  method Empty(fs: FileSystem) returns (head: FileInfo?, ghost nodes: seq<FileInfo>)
    requires fs.Valid() && (forall n :: n in fs.View() ==> Plain(n))
    modifies fs`files, fs`slots, fs.vol`disk, fs.vol`tags, fs.vol.cache, fs.vol.cache.cache, fs.vol.cache.device
    modifies fs.vol.freeMap.bits, fs.root
    ensures fs.Valid() && Chain(head, nodes) && SavedIn(nodes) == SaveAll(Listing(old(fs.slots)), old(fs.View()))
    ensures |fs.slots| == |old(fs.slots)| && forall j :: 1 <= j < |fs.slots| ==> !fs.slots[j].inUse
    ensures |FreeList(fs.vol.tags)| == |FreeList(old(fs.vol.tags))| + TotalCost(SavedIn(nodes))
    ensures SystemKept(old(fs.vol.tags), fs.vol.tags) && Sector0(fs.vol.disk) == Sector0(old(fs.vol.disk))
  {
    forall n | n in Dict(fs.slots)
      ensures Plain(n)
    {
      fs.NameFacts(n);
    }
    ghost var collected;
    head, collected := Collect(fs);
    RemoveAll(fs);
    head := ReverseList(head, collected);
    SavedReversed(collected);
    nodes := SortSpec.Reversed(collected);
  }

  /** defragment of a file system of nonempty plain files. Every name keeps its contents but for the
      last byte, which file_write forces to NUL; so nothing changes exactly when every file ends with
      a NUL already. The listing keeps its order and the volume its number of free sectors: it never
      runs out of space. The files come to lie one after the other in the sectors that are for plain
      files, so that no file is fragmented exactly when none of those places is broken. When the other
      sectors are a prefix of the device, none is, and the used sectors are a prefix again. */
  method Defragment(fs: FileSystem)
    requires fs.Valid() && forall n :: n in fs.View() ==> Plain(n) && fs.View()[n] != []
    modifies fs`files, fs`slots, fs.vol`disk, fs.vol`tags, fs.vol.cache, fs.vol.cache.cache, fs.vol.cache.device
    modifies fs.vol.freeMap.bits, fs.root
    ensures fs.Valid() && fs.View() == AllNulEnded(old(fs.View())) && Listing(fs.slots) == Listing(old(fs.slots))
    ensures fs.View() == old(fs.View()) <==> forall n :: n in old(fs.View()) ==> EndsWithNul(old(fs.View())[n])
    ensures |FreeList(fs.vol.tags)| == |FreeList(old(fs.vol.tags))|
    ensures Gathered(fs, SaveAll(Listing(old(fs.slots)), old(fs.View())), old(fs.vol.tags))
    ensures SystemKept(old(fs.vol.tags), fs.vol.tags)
    ensures Sector0(fs.vol.disk) == Sector0(old(fs.vol.disk))
  {
    ghost var view, names, tags0 := fs.View(), Listing(fs.slots), fs.vol.tags;
    MakeAgain(fs);
    NulEndedAlready(view);
    PlacesMean(fs, names, view, tags0);
  }

  /** The files SAVED lie one after the other in the sectors that TAGS0 has for plain files, which are in
      use exactly so far. None is fragmented exactly when no such place is broken; when the other sectors
      are a prefix, none is and the used sectors are a prefix too. */
  ghost predicate Gathered(fs: FileSystem, saved: seq<Saved>, tags0: seq<Tag>)
    reads fs, fs.vol
  {
    GatheredBody(fs, saved, tags0) == true
  }

  ghost predicate GatheredBody(fs: FileSystem, saved: seq<Saved>, tags0: seq<Tag>)
    reads fs, fs.vol
  {
    var plain := PlainSectors(tags0);
    && LaidOut(fs, saved, plain) && InUse(fs.vol.tags, plain, TotalCost(saved))
    && (Whole(fs) <==> forall j :: 0 <= j < |saved| ==> !BrokenAt(saved, plain, j))
    && forall m: nat :: SystemPrefix(tags0, m) ==> Whole(fs) && PrefixUsed(fs.vol.tags, m + TotalCost(saved))
  }

  /** What the places of the files mean. */
  lemma PlacesMean(fs: FileSystem, names: seq<Name>, view: map<Name, seq<Byte>>, tags0: seq<Tag>)
    requires fs.Valid() && LaidOut(fs, SaveAll(names, view), PlainSectors(tags0)) && fs.View() == AllNulEnded(view)
    requires Listing(fs.slots) == names && |fs.vol.tags| == |tags0|
    requires InUse(fs.vol.tags, PlainSectors(tags0), TotalCost(SaveAll(names, view)))
    ensures Gathered(fs, SaveAll(names, view), tags0)
  {
    var saved := SaveAll(names, view);
    AllListed(fs);
    WholeIsUnbroken(fs, names, view, PlainSectors(tags0));
    forall m: nat | SystemPrefix(tags0, m)
      ensures Whole(fs) && PrefixUsed(fs.vol.tags, m + TotalCost(saved))
    {
      PrefixIsUnbroken(tags0, fs.vol.tags, saved, m);
    }
    assert GatheredBody(fs, saved, tags0);
  }

  /** The whole of it, with what it does to names, contents and sectors. */
  method MakeAgain(fs: FileSystem)
    requires fs.Valid() && forall n :: n in fs.View() ==> Plain(n) && fs.View()[n] != []
    modifies fs`files, fs`slots, fs.vol`disk, fs.vol`tags, fs.vol.cache, fs.vol.cache.cache, fs.vol.cache.device
    modifies fs.vol.freeMap.bits, fs.root
    ensures fs.Valid() && fs.View() == AllNulEnded(old(fs.View())) && Listing(fs.slots) == Listing(old(fs.slots))
    ensures |FreeList(fs.vol.tags)| == |FreeList(old(fs.vol.tags))|
    ensures var saved, plain := SaveAll(Listing(old(fs.slots)), old(fs.View())), PlainSectors(old(fs.vol.tags));
            LaidOut(fs, saved, plain) && InUse(fs.vol.tags, plain, TotalCost(saved))
    ensures SystemKept(old(fs.vol.tags), fs.vol.tags) && Sector0(fs.vol.disk) == Sector0(old(fs.vol.disk))
  {
    ghost var view, names, free0, tags0 := fs.View(), Listing(fs.slots), |FreeList(fs.vol.tags)|, fs.vol.tags;
    SavedFiles(fs);
    var head;
    ghost var nodes;
    head, nodes := Empty(fs);
    ghost var tags1 := fs.vol.tags;
    PlainKept(tags0, tags1);
    RestoreSaved(fs, head, nodes, names, view, free0);
    SystemKeptMore(tags0, tags1, fs.vol.tags);
  }

  /** While the sectors that are not for plain files are a prefix, no place is broken, and the used
      sectors are a prefix too. */
  lemma {:induction false} PrefixIsUnbroken(tags0: seq<Tag>, tags1: seq<Tag>, saved: seq<Saved>, m: nat)
    requires forall j :: 0 <= j < |saved| ==> |Placed(PlainSectors(tags0), saved, j)| == Cost(Sectors(|saved[j].content|))
    requires SystemPrefix(tags0, m) && |tags1| == |tags0| && InUse(tags1, PlainSectors(tags0), TotalCost(saved))
    ensures forall j :: 0 <= j < |saved| ==> !BrokenAt(saved, PlainSectors(tags0), j)
    ensures PrefixUsed(tags1, m + TotalCost(saved))
  {
    PlainRun(tags0, m);
    forall j | 0 <= j < |saved|
      ensures !BrokenAt(saved, PlainSectors(tags0), j)
    {
      RunIsUnbroken(saved, PlainSectors(tags0), m, j);
    }
    RunIsPrefix(tags1, m + TotalCost(saved));
  }

  // ----- A file system that defragment leaves fragmented -----

  const B: Name := [98]

  function Blank(size: nat): (r: seq<Byte>)
    ensures |r| == size
  {
    seq(size, _ => 0)
  }

  /** While a slot is unused, only the sectors of the new file itself are needed. */
  lemma RoomForFile(fs: FileSystem, size: nat)
    requires fs.Valid() && UnusedFrom(fs.slots, 0) < |fs.slots| && Makes(|FreeList(fs.vol.tags)|, size)
    ensures 1 in fs.files && fs.RoomFor(size)
  {
    fs.RootFacts();
    assert |FileBytes(fs.vol.disk, fs.files[1])| == |DirImage(fs.slots)|;
  }

  /** The file is the first and gets the first two free sectors. */
  lemma FirstFile(disk0: seq<Block>, disk1: seq<Block>, tags0: seq<Tag>, tags1: seq<Tag>, files0: Files, files1: Files, id: nat)
    requires Made(disk0, disk1, tags0, tags1, files0, files1, id, 512) && |tags0| == 99 && PrefixUsed(tags0, 74)
             && SystemPrefix(tags0, 74)
    ensures |tags1| == 99 && FreeList(tags1) == seq(23, k => 76 + k)
    ensures forall t :: 0 <= t < 99 ==> (SystemTag(tags1[t]) <==> t < 74)
  {
    PrefixFreeList(tags0, 74);
    MadeCount(disk0, disk1, tags0, tags1, files0, files1, id, 512);
    MadePlaced(disk0, disk1, tags0, tags1, files0, files1, id, 512, FreeList(tags0), 0);
  }

  method MakeFirst(fs: FileSystem)
    requires fs.Valid() && fs.View() == map[] && |fs.slots| == 1000 && !fs.slots[1].inUse
    requires |fs.vol.tags| == 99 && PrefixUsed(fs.vol.tags, 74) && SystemPrefix(fs.vol.tags, 74)
    modifies fs`files, fs`slots, fs.vol`disk, fs.vol`tags, fs.vol.cache, fs.vol.cache.cache, fs.vol.cache.device
    modifies fs.vol.freeMap.bits, fs.root
    ensures fs.Valid() && fs.View() == map[B := Blank(512)] && |fs.slots| == 1000
    ensures |fs.vol.tags| == 99 && FreeList(fs.vol.tags) == seq(23, k => 76 + k)
    ensures forall t :: 0 <= t < 99 ==> (SystemTag(fs.vol.tags[t]) <==> t < 74)
  {
    PrefixFreeList(fs.vol.tags, 74);
    RoomForFile(fs, 512);
    fs.NameFacts(B);
    NameIsToken(B);
    var ok;
    ghost var id;
    ghost var disk0, tags0, files0 := fs.vol.disk, fs.vol.tags, fs.files;
    ok, id := fs.Create(B, 512);
    FirstFile(disk0, fs.vol.disk, tags0, fs.vol.tags, files0, fs.files, id);
  }

  /** A second file of the same name cannot be added, and its three data sectors are lost. */
  method MakeAnother(fs: FileSystem)
    requires fs.Valid() && fs.View() == map[B := Blank(512)] && |fs.slots| == 1000
    requires |fs.vol.tags| == 99 && FreeList(fs.vol.tags) == seq(23, k => 76 + k)
    requires forall t :: 0 <= t < 99 ==> (SystemTag(fs.vol.tags[t]) <==> t < 74)
    modifies fs`files, fs`slots, fs.vol`disk, fs.vol`tags, fs.vol.cache, fs.vol.cache.cache, fs.vol.cache.device
    modifies fs.vol.freeMap.bits, fs.root
    ensures fs.Valid() && fs.View() == map[B := Blank(512)] && |fs.slots| == 1000
    ensures |fs.vol.tags| == 99 && |FreeList(fs.vol.tags)| == 20
    ensures forall t :: 0 <= t < 99 ==> (SystemTag(fs.vol.tags[t]) <==> t < 74 || 77 <= t < 80)
  {
    ghost var tags0 := fs.vol.tags;
    fs.NameFacts(B);
    NameIsToken(B);
    var ok;
    ghost var id;
    ok, id := fs.Create(B, 1536);
    assert WastedFrom(FreeList(tags0), 1536, fs.slots, B, |fs.files[1].secs|) == [77, 78, 79];
  }

  /** The file is removed, and made again with three data sectors. */
  method MakeLonger(fs: FileSystem)
    requires fs.Valid() && fs.View() == map[B := Blank(512)] && |fs.slots| == 1000 && |FreeList(fs.vol.tags)| == 20
    modifies fs`files, fs`slots, fs.vol`disk, fs.vol`tags, fs.vol.cache, fs.vol.cache.cache, fs.vol.cache.device
    modifies fs.vol.freeMap.bits, fs.root
    ensures fs.Valid() && fs.View() == map[B := Blank(1536)] && SystemKept(old(fs.vol.tags), fs.vol.tags)
  {
    ghost var tags0 := fs.vol.tags;
    fs.NameFacts(B);
    fs.RootFacts();
    FindIsLookup(fs.slots, B, 1);
    ghost var j := Find(fs.slots, B);
    RemoveFile(fs, B, j);
    assert !fs.slots[j].inUse;
    ghost var disk1, tags1, files1 := fs.vol.disk, fs.vol.tags, fs.files;
    RoomForFile(fs, 1536);
    fs.NameFacts(B);
    NameIsToken(B);
    var ok;
    ghost var id;
    ok, id := fs.Create(B, 1536);
    MadeCount(disk1, fs.vol.disk, tags1, fs.vol.tags, files1, fs.files, id, 1536);
    SystemKeptMore(tags0, tags1, fs.vol.tags);
  }

  lemma GapInPlain(tags: seq<Tag>)
    requires |tags| == 99 && forall t :: 0 <= t < 99 ==> (SystemTag(tags[t]) <==> t < 74 || 77 <= t < 80)
    ensures |PlainSectors(tags)| >= 4 && Part(PlainSectors(tags), 1, 3) == [75, 76, 80]
  {
    var e := Emptied(tags);
    FreeSkip(e, 0, 74);
    FreeSkip(e, 77, 80);
    assert FreeFrom(e, 74) == [74] + FreeFrom(e, 75);
    assert FreeFrom(e, 75) == [75] + FreeFrom(e, 76);
    assert FreeFrom(e, 76) == [76] + FreeFrom(e, 77);
    assert FreeFrom(e, 80) == [80] + FreeFrom(e, 81);
  }

  lemma OnlyListed(fs: FileSystem, content: seq<Byte>)
    requires fs.Valid() && fs.View() == map[B := content]
    ensures SaveAll(Listing(fs.slots), fs.View()) == [Saved(B, content)]
  {
    fs.RootFacts();
    ListingIsKeys(fs.slots, 1);
    forall n
      ensures n in Dict(fs.slots) <==> n == B
    {
      fs.NameFacts(n);
    }
    var names := Listing(fs.slots);
    assert Dict(fs.slots).Keys == {B} && |names| == 1;
    assert names[0] in names;
  }

  lemma BrokenInGap(plain: seq<nat>)
    requires |plain| >= 4 && Part(plain, 1, 3) == [75, 76, 80]
    ensures BrokenAt([Saved(B, Blank(1536))], plain, 0)
  {
    var saved := [Saved(B, Blank(1536))];
    assert Start(saved, 0) == 0 && Sectors(1536) == 3 && Cost(3) == 3;
    assert Placed(plain, saved, 0) == [75, 76, 80];
    assert Pos(1) == 1 && Pos(2) == 2 && WideGap([75, 76, 80], 1);
  }

  lemma BlankStays(size: nat)
    ensures AllNulEnded(map[B := Blank(size)]) == map[B := Blank(size)]
  {
    assert NulEnded(Blank(size)) == Blank(size);
  }

  /** On a device of 100 sectors the first plain file gets sectors 74 and 75. Creating a file of three
      sectors under the same name fails and loses sectors 77 to 79. Whatever file of three sectors is
      then the first has its last one behind the gap. */
  method LeaveGap() returns (fs: FileSystem)
    ensures fresh(fs) && fresh(fs.vol) && fresh(fs.root) && fresh(fs.vol.cache) && fresh(fs.vol.cache.cache)
    ensures fresh(fs.vol.cache.device) && fresh(fs.vol.freeMap) && fresh(fs.vol.freeMap.bits)
    ensures fs.Valid() && fs.View() == map[B := Blank(1536)]
    ensures |PlainSectors(fs.vol.tags)| >= 4 && Part(PlainSectors(fs.vol.tags), 1, 3) == [75, 76, 80]
  {
    fs := Formatting.FormatSmall(99);
    MakeFirst(fs);
    MakeAnother(fs);
    ghost var tags1 := fs.vol.tags;
    MakeLonger(fs);
    GapInPlain(tags1);
    PlainKept(tags1, fs.vol.tags);
  }

  /** There defragment leaves it fragmented. */
  method StaysFragmented() returns (fs: FileSystem)
    ensures fresh(fs) && fs.Valid() && fs.View() == map[B := Blank(1536)] && !Whole(fs)
  {
    fs := LeaveGap();
    OnlyListed(fs, Blank(1536));
    BrokenInGap(PlainSectors(fs.vol.tags));
    Defragment(fs);
    BlankStays(1536);
  }
}
