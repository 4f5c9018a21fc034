/** Who owns every sector: the files of a volume, their inodes, data and index sectors, kept apart
    by every operation. */
module Ownership {
  import opened Blocks
  import opened Layout
  import opened Content
  import opened Reserving
  import opened Growth
  import Inodes

  /** A file: its inode as last written, and its sectors in allocation order. */
  datatype FileState = FileState(d: InodeDisk, secs: seq<nat>)

  /** The files by the sectors of their inodes. */
  type Files = map<nat, FileState>

  function FileBytes(disk: seq<Block>, f: FileState): seq<Byte> { Bytes(disk, f.secs, f.d.length) }

  /** File F stands on the disk with its inode in sector ID. Only the free map's inode, in sector 0, may
      have been zeroed by a reservation that ran out. */
  ghost predicate Stands(disk: seq<Block>, tags: seq<Tag>, id: nat, f: FileState) {
    && id < |tags| < |disk| && tags[id] == Own(id, -1)
    && |f.d.direct| == DIRECT
    && (disk[id] == EncodeInode(f.d) || (id == 0 && disk[0] == Zeros()))
    && IsFile(disk, tags, id, f.d, f.secs)
  }

  /** Sector t, tagged as owned, is where its owner has it. */
  predicate InPlace(tag: Tag, t: nat, files: Files) {
    tag.Own? ==>
      && tag.id in files
      && (if tag.pos == -1 then t == tag.id else 0 <= tag.pos < |files[tag.id].secs| && files[tag.id].secs[tag.pos] == t)
  }

  /** The ownership invariant: every file stands on the disk, and every owned sector is one of its
      file's. */
  ghost predicate World(disk: seq<Block>, tags: seq<Tag>, files: Files) {
    WorldBody(disk, tags, files) == true
  }

  ghost predicate WorldBody(disk: seq<Block>, tags: seq<Tag>, files: Files) {
    forall b {:trigger Open(b)} :: Open(b) ==>
      && 0 in files
      && (forall id :: id in files ==> Stands(disk, tags, id, files[id]))
      && (forall t :: 0 <= t < |tags| ==> InPlace(tags[t], t, files))
  }

  lemma WorldFile(disk: seq<Block>, tags: seq<Tag>, files: Files, id: nat)
    requires World(disk, tags, files) && id in files
    ensures Stands(disk, tags, id, files[id])
  {
    assert Open(true);
  }

  lemma Sector0Kept(disk0: seq<Block>, disk1: seq<Block>, tags0: seq<Tag>, tags1: seq<Tag>, files: Files, id: nat)
    requires World(disk0, tags0, files) && 0 in files && id != 0
    requires |tags1| == |tags0| && (FileOnly(disk0, disk1, tags1, id) || DataOnly(disk0, disk1, tags1, 0))
    requires 0 < |tags0| ==> tags1[0] == tags0[0]
    ensures Sector0(disk1) == Sector0(disk0)
  {
    WorldFile(disk0, tags0, files, 0);
  }

  // ----- What the invariant means -----

  /** All the sectors of a file: its inode's and those it holds. */
  function SectorsOf(files: Files, id: nat): set<nat>
    requires id in files
  {
    {id} + set s | s in files[id].secs
  }

  lemma OwnedBy(disk: seq<Block>, tags: seq<Tag>, f: FileState, i: nat, files: Files, s: nat)
    requires Stands(disk, tags, i, f) && i in files && files[i] == f && s in SectorsOf(files, i)
    ensures s < |tags| && tags[s].Own? && tags[s].id == i && (s == i <==> tags[s].pos == -1) && (s == 0 ==> i == 0)
  {
    if s != i {
      var q :| 0 <= q < |f.secs| && f.secs[q] == s;
      assert tags[f.secs[q]] == Own(i, q);
    }
  }

  /** Of the used sectors, all belong to files but those that are lost. */
  lemma UsedIsOwned(disk: seq<Block>, tags: seq<Tag>, files: Files, t: nat)
    requires World(disk, tags, files) && t < |tags|
    ensures tags[t] != Free && tags[t] != Lost <==> exists i :: i in files && t in SectorsOf(files, i)
  {
    assert Open(true);
    if tags[t].Own? {
      assert InPlace(tags[t], t, files);
      assert t in SectorsOf(files, tags[t].id);
    } else if i :| i in files && t in SectorsOf(files, i) {
      OwnedBy(disk, tags, files[i], i, files, t);
    }
  }

  /** No two files share a sector, inodes included; within a file every sector is different and none
      is its inode's; sector 0 is only ever the free map's inode. */
  lemma SectorsDisjoint(disk: seq<Block>, tags: seq<Tag>, files: Files, i: nat, j: nat)
    requires World(disk, tags, files) && i in files && j in files
    ensures i != j ==> SectorsOf(files, i) !! SectorsOf(files, j)
    ensures i !in files[i].secs && 0 !in files[i].secs && (0 in SectorsOf(files, i) <==> i == 0)
    ensures forall q, r :: 0 <= q < r < |files[i].secs| ==> files[i].secs[q] != files[i].secs[r]
  {
    WorldFile(disk, tags, files, i);
    WorldFile(disk, tags, files, j);
    forall s | s in SectorsOf(files, i)
      ensures i != j ==> s !in SectorsOf(files, j)
    {
      OwnedBy(disk, tags, files[i], i, files, s);
      if i != j && s in SectorsOf(files, j) {
        OwnedBy(disk, tags, files[j], j, files, s);
      }
    }
    forall q, r | 0 <= q < r < |files[i].secs|
      ensures files[i].secs[q] != files[i].secs[r]
    {
      assert tags[files[i].secs[q]] == Own(i, q) && tags[files[i].secs[r]] == Own(i, r);
    }
  }

  // ----- One file changes -----

  /** Nothing of the files other than ID and the free map changed. */
  ghost predicate OthersKept(disk0: seq<Block>, disk1: seq<Block>, tags0: seq<Tag>, tags1: seq<Tag>, id: nat) {
    && |tags1| == |tags0| && |disk1| == |disk0|
    && (forall t :: 0 <= t < |tags0| && tags0[t].Own? && tags0[t].id != id ==> tags1[t] == tags0[t])
    && (forall t :: 0 <= t < |tags0| && t < |disk0| && disk1[t] != disk0[t] && tags0[t].Own? ==> tags0[t].id == id || tags0[t].id == 0)
  }

  lemma StandsKept(disk0: seq<Block>, disk1: seq<Block>, tags0: seq<Tag>, tags1: seq<Tag>, id: nat, j: nat, f: FileState)
    requires Stands(disk0, tags0, j, f) && OthersKept(disk0, disk1, tags0, tags1, id) && j != id && j != 0
    ensures Stands(disk1, tags1, j, f) && FileBytes(disk1, f) == FileBytes(disk0, f)
  {
    UntouchedFile(disk0, disk1, tags0, tags1, j, f.d, f.secs);
  }

  /** FILES1 has the files of FILES0, except for file ID. */
  ghost predicate SameFiles(files0: Files, files1: Files, id: nat) {
    forall j: nat :: j != id ==> (j in files0 <==> j in files1) && (j in files0 && j in files1 ==> files1[j] == files0[j])
  }

  /** The contents of the files other than ID and the free map are the same. */
  ghost predicate SameBytes(disk0: seq<Block>, disk1: seq<Block>, files: Files, id: nat) {
    forall j :: j in files && j != id && j != 0 ==> FileBytes(disk1, files[j]) == FileBytes(disk0, files[j])
  }

  /** The contents of the plain files other than ID are the same. */
  ghost predicate SamePlain(disk0: seq<Block>, disk1: seq<Block>, files: Files, id: nat) {
    forall j :: j in files && j != id && j >= 2 ==> FileBytes(disk1, files[j]) == FileBytes(disk0, files[j])
  }

  lemma WorldStep(disk0: seq<Block>, disk1: seq<Block>, tags0: seq<Tag>, tags1: seq<Tag>, files0: Files, files1: Files, id: nat)
    requires World(disk0, tags0, files0) && OthersKept(disk0, disk1, tags0, tags1, id) && SameFiles(files0, files1, id)
    requires id != 0 && (id in files1 ==> Stands(disk1, tags1, id, files1[id]))
    requires 0 in files0 ==> IsFile(disk1, tags1, 0, files0[0].d, files0[0].secs)
    requires Sector0(disk1) == Sector0(disk0) || Sector0(disk1) == Zeros()
    requires forall t :: 0 <= t < |tags1| ==> InPlace(tags1[t], t, files1)
    ensures World(disk1, tags1, files1) && SameBytes(disk0, disk1, files0, id)
  {
    AllStand(disk0, disk1, tags0, tags1, files0, files1, id);
    WorldZero(disk0, tags0, files0);
  }

  lemma WorldZero(disk: seq<Block>, tags: seq<Tag>, files: Files)
    requires World(disk, tags, files)
    ensures 0 in files
  {
    assert Open(true);
  }

  lemma AllStand(disk0: seq<Block>, disk1: seq<Block>, tags0: seq<Tag>, tags1: seq<Tag>, files0: Files, files1: Files, id: nat)
    requires World(disk0, tags0, files0) && OthersKept(disk0, disk1, tags0, tags1, id) && SameFiles(files0, files1, id)
    requires id != 0 && (id in files1 ==> Stands(disk1, tags1, id, files1[id]))
    requires 0 in files0 ==> IsFile(disk1, tags1, 0, files0[0].d, files0[0].secs)
    requires Sector0(disk1) == Sector0(disk0) || Sector0(disk1) == Zeros()
    ensures forall j :: j in files1 ==> Stands(disk1, tags1, j, files1[j])
    ensures SameBytes(disk0, disk1, files0, id)
  {
    forall j | j in files0 && j != id
      ensures Stands(disk1, tags1, j, files0[j]) && (j != 0 ==> FileBytes(disk1, files0[j]) == FileBytes(disk0, files0[j]))
    {
      WorldFile(disk0, tags0, files0, j);
      if j != 0 {
        StandsKept(disk0, disk1, tags0, tags1, id, j, files0[j]);
      }
    }
  }

  /** A write to file ID. */
  lemma WorldWrite(disk0: seq<Block>, disk1: seq<Block>, tags0: seq<Tag>, tags1: seq<Tag>, files: Files, id: nat,
                   d1: InodeDisk, secs1: seq<nat>, offset: nat, buffer: seq<Byte>)
    requires World(disk0, tags0, files) && id in files && id != 0 && 0 in files && |tags0| < |disk0|
    requires Written(disk0, disk1, tags0, tags1, id, files[id].d, d1, files[id].secs, secs1, offset, buffer)
    requires IsFile(disk1, tags1, 0, files[0].d, files[0].secs)
    ensures World(disk1, tags1, files[id := FileState(d1, secs1)]) && SameBytes(disk0, disk1, files, id)
    ensures Sector0(disk1) == Sector0(disk0)
    ensures FileBytes(disk1, FileState(d1, secs1)) == Spliced(FileBytes(disk0, files[id]), offset, buffer)
  {
    WorldFile(disk0, tags0, files, id);
    WrittenFacts(disk0, disk1, tags0, tags1, id, files[id].d, d1, files[id].secs, secs1, offset, buffer);
    WriteKeepsOthers(disk0, disk1, tags0, tags1, id, files[id].secs, secs1);
    WriteInPlace(disk0, disk1, tags0, tags1, files, id, FileState(d1, secs1));
    assert d1.length == files[id].d.length ==> disk1[id] == disk0[id];
    WorldFile(disk0, tags0, files, 0);
    Sector0Kept(disk0, disk1, tags0, tags1, files, id);
    WorldStep(disk0, disk1, tags0, tags1, files, files[id := FileState(d1, secs1)], id);
  }

  lemma WriteKeepsOthers(disk0: seq<Block>, disk1: seq<Block>, tags0: seq<Tag>, tags1: seq<Tag>, id: nat,
                         secs0: seq<nat>, secs1: seq<nat>)
    requires Grew(tags0, tags1, id, secs0, secs1) && FileOnly(disk0, disk1, tags1, id)
    ensures OthersKept(disk0, disk1, tags0, tags1, id)
  {
  }

  lemma WriteInPlace(disk0: seq<Block>, disk1: seq<Block>, tags0: seq<Tag>, tags1: seq<Tag>, files: Files, id: nat, f1: FileState)
    requires World(disk0, tags0, files) && id in files && Grew(tags0, tags1, id, files[id].secs, f1.secs)
    ensures forall t :: 0 <= t < |tags1| ==> InPlace(tags1[t], t, files[id := f1])
  {
    assert Open(true);
  }

  /** A file created in the first free sector. */
  lemma WorldCreate(disk0: seq<Block>, disk1: seq<Block>, disk2: seq<Block>, tags0: seq<Tag>, tags1: seq<Tag>, tags2: seq<Tag>,
                    files: Files, id: nat, d0: InodeDisk, d: InodeDisk, secs: seq<nat>, length: nat)
    requires World(disk0, tags0, files) && 0 in files && 0 < id < |tags0| < |disk0| && tags0[id] == Free
    requires tags1 == tags0[id := Own(id, -1)] && DataOnly(disk0, disk1, tags1, 0)
    requires Lengthened(disk1, disk2, tags1, tags2, id, d0, d, [], secs, length) && |d0.direct| == DIRECT
    requires IsFile(disk2, tags2, 0, files[0].d, files[0].secs)
    ensures id !in files && World(disk2, tags2, files[id := FileState(d, secs)]) && SameBytes(disk0, disk2, files, id)
    ensures Sector0(disk2) == Sector0(disk0)
  {
    assert Open(true);
    assert id in files ==> Stands(disk0, tags0, id, files[id]);
    var files1 := files[id := FileState(d, secs)];
    CreateInPlace(disk0, tags0, tags1, tags2, files, id, FileState(d, secs));
    CreateKeepsOthers(disk0, disk1, disk2, tags0, tags1, tags2, id, secs);
    assert disk2[id] == EncodeInode(d);
    WorldFile(disk0, tags0, files, 0);
    Sector0Kept(disk0, disk1, tags0, tags1, files, id);
    assert tags2[0] == tags0[0] && Sector0(disk2) == Sector0(disk1);
    WorldStep(disk0, disk2, tags0, tags2, files, files1, id);
  }

  lemma CreateInPlace(disk0: seq<Block>, tags0: seq<Tag>, tags1: seq<Tag>, tags2: seq<Tag>, files: Files, id: nat, f: FileState)
    requires World(disk0, tags0, files) && id < |tags0| && id !in files
    requires tags1 == tags0[id := Own(id, -1)] && Grew(tags1, tags2, id, [], f.secs)
    ensures forall t :: 0 <= t < |tags2| ==> InPlace(tags2[t], t, files[id := f])
  {
    assert Open(true);
  }

  lemma CreateKeepsOthers(disk0: seq<Block>, disk1: seq<Block>, disk2: seq<Block>, tags0: seq<Tag>, tags1: seq<Tag>, tags2: seq<Tag>,
                          id: nat, secs: seq<nat>)
    requires id < |tags0| && tags0[id] == Free && tags1 == tags0[id := Own(id, -1)] && DataOnly(disk0, disk1, tags1, 0)
    requires Grew(tags1, tags2, id, [], secs) && FileOnly(disk1, disk2, tags2, id)
    ensures OthersKept(disk0, disk2, tags0, tags2, id)
  {
    forall t | 0 <= t < |tags0| && t < |disk0| && disk2[t] != disk0[t] && tags0[t].Own?
      ensures tags0[t].id == id || tags0[t].id == 0
    {
      if disk2[t] == disk1[t] {
        assert disk1[t] != disk0[t];
      }
    }
  }

  /** File ID removed: its sectors are free. */
  lemma WorldRemove(disk0: seq<Block>, disk1: seq<Block>, tags0: seq<Tag>, tags1: seq<Tag>, files: Files, id: nat)
    requires World(disk0, tags0, files) && id in files && id != 0 && 0 in files
    requires Inodes.Removed(disk0, disk1, tags0, tags1, id, files[id].secs)
    requires IsFile(disk1, tags1, 0, files[0].d, files[0].secs)
    ensures World(disk1, tags1, files - {id}) && SameBytes(disk0, disk1, files, id) && Sector0(disk1) == Sector0(disk0)
  {
    RemoveInPlace(disk0, disk1, tags0, tags1, files, id);
    WorldFile(disk0, tags0, files, 0);
    WorldStep(disk0, disk1, tags0, tags1, files, files - {id}, id);
  }

  lemma RemoveInPlace(disk0: seq<Block>, disk1: seq<Block>, tags0: seq<Tag>, tags1: seq<Tag>, files: Files, id: nat)
    requires World(disk0, tags0, files) && id in files && id != 0
    requires Inodes.Removed(disk0, disk1, tags0, tags1, id, files[id].secs)
    ensures forall t :: 0 <= t < |tags1| ==> InPlace(tags1[t], t, files - {id})
    ensures OthersKept(disk0, disk1, tags0, tags1, id)
  {
    assert Open(true);
    assert Stands(disk0, tags0, id, files[id]);
    forall t | 0 <= t < |tags1|
      ensures InPlace(tags1[t], t, files - {id})
    {
      assert InPlace(tags0[t], t, files);
      if tags1[t] != Free {
        assert tags1[t] == tags0[t];
        StillInPlace(tags0[t], t, files, id);
      }
    }
  }

  lemma StillInPlace(tag: Tag, t: nat, files: Files, id: nat)
    requires InPlace(tag, t, files) && id in files
    requires !(tag.Own? && tag.id == id)
    ensures InPlace(tag, t, files - {id})
  {
  }

  // ----- Failed creations -----

  /** Since DISK0 and TAGS0, file ID has taken free sectors, others were lost, and nothing else has
      changed hands. */
  ghost predicate Intruded(disk0: seq<Block>, disk1: seq<Block>, tags0: seq<Tag>, tags1: seq<Tag>, id: nat) {
    && OthersKept(disk0, disk1, tags0, tags1, id) && (Sector0(disk1) == Sector0(disk0) || Sector0(disk1) == Zeros())
    && forall t :: 0 <= t < |tags0| ==>
         tags1[t] == tags0[t] || (tags0[t] == Free && (tags1[t] == Lost || (tags1[t].Own? && tags1[t].id == id)))
  }

  lemma RefusalIntrudes(disk0: seq<Block>, disk1: seq<Block>, disk2: seq<Block>, tags0: seq<Tag>, tags1: seq<Tag>, tags2: seq<Tag>,
                        id: nat, secs: seq<nat>, num: nat)
    requires 0 < id < |tags0| && tags0[id] == Free && tags1 == tags0[id := Own(id, -1)] && DataOnly(disk0, disk1, tags1, 0)
    requires Refused(disk1, disk2, tags1, tags2, id, [], secs, num) && |tags0| <= |disk0| && tags0[0] == Own(0, -1)
    ensures Intruded(disk0, disk2, tags0, tags2, id) && Grew(tags1, tags2, id, [], secs) && Sector0(disk1) == Sector0(disk0)
  {
    RefusedFacts(disk1, disk2, tags1, tags2, id, [], secs, num);
    forall t | 0 <= t < |tags0| && t < |disk0| && disk2[t] != disk0[t] && tags0[t].Own?
      ensures tags0[t].id == id || tags0[t].id == 0
    {
      if disk2[t] == disk1[t] {
        assert disk1[t] != disk0[t];
      }
    }
  }

  lemma CreationIntrudes(disk0: seq<Block>, disk1: seq<Block>, disk2: seq<Block>, tags0: seq<Tag>, tags1: seq<Tag>, tags2: seq<Tag>,
                         id: nat, secs: seq<nat>)
    requires id < |tags0| && tags0[id] == Free && tags1 == tags0[id := Own(id, -1)] && DataOnly(disk0, disk1, tags1, 0)
    requires Grew(tags1, tags2, id, [], secs) && FileOnly(disk1, disk2, tags2, id) && Sector0(disk2) == Sector0(disk0)
    ensures Intruded(disk0, disk2, tags0, tags2, id)
  {
    CreateKeepsOthers(disk0, disk1, disk2, tags0, tags1, tags2, id, secs);
  }

  /** After a failed creation, whose inode sector is released and whose other sectors are lost,
      every file still stands and reads the same. */
  lemma WorldLose(disk0: seq<Block>, disk1: seq<Block>, disk2: seq<Block>, tags0: seq<Tag>, tags1: seq<Tag>, tags2: seq<Tag>,
                  files: Files, id: nat)
    requires World(disk0, tags0, files) && Intruded(disk0, disk1, tags0, tags1, id) && 0 < id < |tags0| && tags0[id] == Free
    requires tags2 == tags1[id := Free] && DataOnly(disk1, disk2, tags2, 0)
    requires 0 in files ==> IsFile(disk2, tags2, 0, files[0].d, files[0].secs)
    ensures World(disk2, Lose(tags2, id), files) && SameBytes(disk0, disk2, files, id) && id !in files
    ensures Sector0(disk2) == Sector0(disk1)
  {
    var tags3 := Lose(tags2, id);
    WorldZero(disk0, tags0, files);
    WorldFile(disk0, tags0, files, 0);
    LostKeepsOthers(disk0, disk1, disk2, tags0, tags1, tags2, id);
    LostInPlace(disk0, tags0, tags2, files, id);
    WorldStep(disk0, disk2, tags0, tags3, files, files, id);
  }

  lemma LostKeepsOthers(disk0: seq<Block>, disk1: seq<Block>, disk2: seq<Block>, tags0: seq<Tag>, tags1: seq<Tag>, tags2: seq<Tag>,
                        id: nat)
    requires Intruded(disk0, disk1, tags0, tags1, id) && id < |tags0| && tags0[id] == Free
    requires tags2 == tags1[id := Free] && DataOnly(disk1, disk2, tags2, 0)
    ensures OthersKept(disk0, disk2, tags0, Lose(tags2, id), id)
  {
    forall t | 0 <= t < |tags0| && t < |disk0| && disk2[t] != disk0[t] && tags0[t].Own?
      ensures tags0[t].id == id || tags0[t].id == 0
    {
      if disk2[t] == disk1[t] {
        assert disk1[t] != disk0[t];
      }
    }
  }

  lemma LostInPlace(disk0: seq<Block>, tags0: seq<Tag>, tags2: seq<Tag>, files: Files, id: nat)
    requires World(disk0, tags0, files) && id < |tags0| && tags0[id] == Free && |tags2| == |tags0|
    requires forall t :: 0 <= t < |tags0| ==>
               tags2[t] == tags0[t] || (tags0[t] == Free && (tags2[t] == Lost || (tags2[t].Own? && tags2[t].id == id)))
    ensures id !in files
    ensures forall t :: 0 <= t < |tags0| ==> InPlace(Lose(tags2, id)[t], t, files)
  {
    assert Open(true);
    assert id in files ==> Stands(disk0, tags0, id, files[id]);
  }

  /** The sectors lost are exactly those that the failed file was given, and those lost before. */
  lemma LostAreNews(disk0: seq<Block>, disk1: seq<Block>, tags0: seq<Tag>, tags1: seq<Tag>, files: Files, id: nat,
                    secs: seq<nat>, lost: seq<nat>)
    requires World(disk0, tags0, files) && 0 < id < |tags0| && tags0[id] == Free
    requires Intruded(disk0, disk1, tags0, tags1, id) && Given(tags0, tags1, id, secs, lost) && id !in secs + lost
    ensures Lose(tags1[id := Free], id) == WrittenOff(tags0, secs + lost)
  {
    NothingOwned(disk0, tags0, files, id);
    GivenIsLost(tags0, tags1, id, secs, lost);
  }

  /** A new file has its inode's sector and SECS. */
  lemma NewsAreGiven(disk0: seq<Block>, tags0: seq<Tag>, tags1: seq<Tag>, files: Files, id: nat, secs: seq<nat>)
    requires World(disk0, tags0, files) && 0 < id < |tags0| && tags0[id] == Free
    requires Grew(tags0[id := Own(id, -1)], tags1, id, [], secs)
    ensures Given(tags0, tags1, id, secs, []) && id !in secs
  {
    NothingOwned(disk0, tags0, files, id);
    forall q | 0 <= q < |secs|
      ensures secs[q] != id
    {
      assert tags1[secs[q]] == Own(id, q);
    }
    forall t | 0 <= t < |tags0|
      ensures tags1[t].Own? && tags1[t].id == id <==> t == id || t in secs
    {
      if t in secs {
        var q :| 0 <= q < |secs| && secs[q] == t;
        assert tags1[secs[q]] == Own(id, q);
      }
    }
  }

  /** A reservation for file ID that was refused changes no byte of any file, its own included. */
  lemma RefusalKeepsBytes(disk0: seq<Block>, disk1: seq<Block>, tags0: seq<Tag>, tags1: seq<Tag>, files: Files, id: nat,
                          secs1: seq<nat>, num: nat, j: nat)
    requires World(disk0, tags0, files) && id in files && j in files && j != 0
    requires Refused(disk0, disk1, tags0, tags1, id, files[id].secs, secs1, num)
    ensures FileBytes(disk1, files[j]) == FileBytes(disk0, files[j])
  {
    RefusedFacts(disk0, disk1, tags0, tags1, id, files[id].secs, secs1, num);
    WorldFile(disk0, tags0, files, j);
    var f := files[j];
    forall x | 0 <= x < f.d.length
      ensures ByteAt(disk1, f.secs, x) == ByteAt(disk0, f.secs, x)
    {
      var q := Pos(x / 512);
      PosIsData(x / 512);
      if q < |f.secs| {
        assert tags0[f.secs[q]] == Own(j, q);
      }
    }
  }

  /** No owned sector changed hands, and no file but the free map's changed a byte. */
  ghost predicate Harmless(disk0: seq<Block>, disk1: seq<Block>, tags0: seq<Tag>, tags1: seq<Tag>, files: Files) {
    HarmlessBody(disk0, disk1, tags0, tags1, files) == true
  }

  ghost predicate HarmlessBody(disk0: seq<Block>, disk1: seq<Block>, tags0: seq<Tag>, tags1: seq<Tag>, files: Files) {
    && |tags1| == |tags0|
    && (forall t :: 0 <= t < |tags0| && tags0[t].Own? ==> tags1[t] == tags0[t])
    && forall j :: j in files && j != 0 ==> FileBytes(disk1, files[j]) == FileBytes(disk0, files[j])
  }

  lemma HarmlessMore(disk0: seq<Block>, disk1: seq<Block>, disk2: seq<Block>, tags0: seq<Tag>, tags1: seq<Tag>, tags2: seq<Tag>,
                     files0: Files, files1: Files)
    requires Harmless(disk0, disk1, tags0, tags1, files0) && Harmless(disk1, disk2, tags1, tags2, files1)
    requires forall j :: j in files0 ==> j in files1 && files1[j] == files0[j]
    ensures Harmless(disk0, disk2, tags0, tags2, files0)
  {
  }

  lemma IntrusionIsHarmless(disk0: seq<Block>, disk1: seq<Block>, tags0: seq<Tag>, tags1: seq<Tag>, files: Files, id: nat)
    requires World(disk0, tags0, files) && Intruded(disk0, disk1, tags0, tags1, id) && id < |tags0| && tags0[id] == Free
    ensures Harmless(disk0, disk1, tags0, tags1, files) && id !in files
  {
    assert id in files ==> Stands(disk0, tags0, id, files[id]) by {
      assert Open(true);
    }
    forall j | j in files && j != 0
      ensures FileBytes(disk1, files[j]) == FileBytes(disk0, files[j])
    {
      WorldFile(disk0, tags0, files, j);
      StandsKept(disk0, disk1, tags0, tags1, id, j, files[j]);
    }
  }

  lemma RefusalIsHarmless(disk0: seq<Block>, disk1: seq<Block>, tags0: seq<Tag>, tags1: seq<Tag>, files: Files, id: nat,
                          secs1: seq<nat>, num: nat)
    requires World(disk0, tags0, files) && id in files
    requires Refused(disk0, disk1, tags0, tags1, id, files[id].secs, secs1, num)
    ensures Harmless(disk0, disk1, tags0, tags1, files)
  {
    RefusedFacts(disk0, disk1, tags0, tags1, id, files[id].secs, secs1, num);
    forall j | j in files && j != 0
      ensures FileBytes(disk1, files[j]) == FileBytes(disk0, files[j])
    {
      RefusalKeepsBytes(disk0, disk1, tags0, tags1, files, id, secs1, num, j);
    }
  }

  /** A free sector is no file's inode, and owns nothing. */
  lemma NothingOwned(disk: seq<Block>, tags: seq<Tag>, files: Files, id: nat)
    requires World(disk, tags, files) && id < |tags| && tags[id] == Free
    ensures id !in files && forall t :: 0 <= t < |tags| && tags[t].Own? ==> tags[t].id != id
  {
    assert Open(true);
    assert id in files ==> Stands(disk, tags, id, files[id]);
    forall t | 0 <= t < |tags| && tags[t].Own?
      ensures tags[t].id != id
    {
      assert InPlace(tags[t], t, files);
    }
  }

  /** Writing the free map's file changes the bytes of no other. */
  lemma MapWriteKeepsBytes(disk1: seq<Block>, disk2: seq<Block>, tags: seq<Tag>, f: FileState, j: nat)
    requires j != 0 && DataOnly(disk1, disk2, tags, 0)
    requires forall q :: 0 <= q < |f.secs| ==> f.secs[q] < |tags| && tags[f.secs[q]] == Own(j, q)
    ensures FileBytes(disk2, f) == FileBytes(disk1, f)
  {
    forall x | 0 <= x < f.d.length
      ensures ByteAt(disk2, f.secs, x) == ByteAt(disk1, f.secs, x)
    {
      var q := Pos(x / 512);
      if q < |f.secs| {
        assert tags[f.secs[q]] == Own(j, q);
      }
    }
  }

  /** Giving up on file ID, which had no sector to begin with, harms no other. */
  lemma GivingUpIsHarmless(disk0: seq<Block>, disk1: seq<Block>, disk2: seq<Block>, tags0: seq<Tag>, tags1: seq<Tag>, files: Files, id: nat)
    requires World(disk0, tags0, files) && id < |tags0| && tags0[id] == Free && Harmless(disk0, disk1, tags0, tags1, files)
    requires DataOnly(disk1, disk2, tags1[id := Free], 0)
    ensures Harmless(disk0, disk2, tags0, Lose(tags1[id := Free], id), files)
  {
    NothingOwned(disk0, tags0, files, id);
    forall j | j in files && j != 0
      ensures FileBytes(disk2, files[j]) == FileBytes(disk1, files[j])
    {
      WorldFile(disk0, tags0, files, j);
      MapWriteKeepsBytes(disk1, disk2, tags1[id := Free], files[j], j);
    }
  }

  // ----- Refused reservations -----

  /** A file that has no index blocks could not grow: once its open inode is gone, and the sectors that it
      got are written off, it stands on the disk as before. */
  lemma ClosedStands(disk0: seq<Block>, disk1: seq<Block>, tags0: seq<Tag>, tags1: seq<Tag>, id: nat, f: FileState,
                     secs1: seq<nat>, num: nat)
    requires Stands(disk0, tags0, id, f) && id != 0 && |f.secs| <= DIRECT && tags0[0] == Own(0, -1)
    requires forall t :: 0 <= t < |tags0| && tags0[t].Own? && tags0[t].id == id ==> -1 <= tags0[t].pos < |f.secs|
    requires Refused(disk0, disk1, tags0, tags1, id, f.secs, secs1, num)
    ensures Stands(disk1, LoseFrom(tags1, id, |f.secs|), id, f)
  {
    RefusedFacts(disk0, disk1, tags0, tags1, id, f.secs, secs1, num);
    var n0 := |f.secs|;
    forall t | 0 < t < |disk0| && disk1[t] != disk0[t] && t < |tags0| && tags0[t].Own? && tags0[t].id == id
      ensures false
    {
      IndexIs(tags0[t].pos);
    }
    UntouchedFile(disk0, disk1, tags0, LoseFrom(tags1, id, n0), id, f.d, f.secs);
  }

  /** The free map's file stands too. */
  lemma ClosedMapStands(disk: seq<Block>, tags: seq<Tag>, id: nat, from: nat, f: FileState)
    requires IsFile(disk, tags, 0, f.d, f.secs) && id != 0 && |tags| <= |disk|
    ensures IsFile(disk, LoseFrom(tags, id, from), 0, f.d, f.secs)
  {
    UntouchedFile(disk, disk, tags, LoseFrom(tags, id, from), 0, f.d, f.secs);
  }

  lemma WorldClosed(disk0: seq<Block>, disk1: seq<Block>, tags0: seq<Tag>, tags1: seq<Tag>, files: Files, id: nat,
                    secs1: seq<nat>, num: nat)
    requires World(disk0, tags0, files) && id in files && id != 0 && 0 in files && |files[id].secs| <= DIRECT
    requires Refused(disk0, disk1, tags0, tags1, id, files[id].secs, secs1, num)
    requires IsFile(disk1, tags1, 0, files[0].d, files[0].secs)
    ensures World(disk1, LoseFrom(tags1, id, |files[id].secs|), files)
  {
    var tags2 := LoseFrom(tags1, id, |files[id].secs|);
    WorldFile(disk0, tags0, files, id);
    WorldFile(disk0, tags0, files, 0);
    RefusedFacts(disk0, disk1, tags0, tags1, id, files[id].secs, secs1, num);
    OwnPositions(disk0, tags0, files, id);
    ClosedStands(disk0, disk1, tags0, tags1, id, files[id], secs1, num);
    ClosedMapStands(disk1, tags1, id, |files[id].secs|, files[0]);
    ClosedInPlace(disk0, tags0, tags1, files, id, secs1);
    ClosedKeepsOthers(disk0, disk1, tags0, tags1, files, id, secs1);
    WorldStep(disk0, disk1, tags0, tags2, files, files, id);
  }

  lemma OwnPositions(disk: seq<Block>, tags: seq<Tag>, files: Files, id: nat)
    requires World(disk, tags, files) && id in files
    ensures forall t :: 0 <= t < |tags| && tags[t].Own? && tags[t].id == id ==> -1 <= tags[t].pos < |files[id].secs|
  {
    assert Open(true);
    forall t | 0 <= t < |tags| && tags[t].Own? && tags[t].id == id
      ensures -1 <= tags[t].pos < |files[id].secs|
    {
      assert InPlace(tags[t], t, files);
    }
  }

  lemma ClosedInPlace(disk0: seq<Block>, tags0: seq<Tag>, tags1: seq<Tag>, files: Files, id: nat, secs1: seq<nat>)
    requires World(disk0, tags0, files) && id in files && Grew(tags0, tags1, id, files[id].secs, secs1)
    ensures forall t :: 0 <= t < |tags0| ==> InPlace(LoseFrom(tags1, id, |files[id].secs|)[t], t, files)
  {
    assert Open(true);
    forall t | 0 <= t < |tags0|
      ensures InPlace(LoseFrom(tags1, id, |files[id].secs|)[t], t, files)
    {
      assert InPlace(tags0[t], t, files);
    }
  }

  lemma ClosedKeepsOthers(disk0: seq<Block>, disk1: seq<Block>, tags0: seq<Tag>, tags1: seq<Tag>, files: Files, id: nat,
                          secs1: seq<nat>)
    requires World(disk0, tags0, files) && id in files && Grew(tags0, tags1, id, files[id].secs, secs1)
    requires LooseFrame(disk0, disk1, tags1, id, |files[id].secs|) && 0 < |tags0| && tags0[0] == Own(0, -1)
    ensures OthersKept(disk0, disk1, tags0, LoseFrom(tags1, id, |files[id].secs|), id)
  {
  }

  /** What such a file got and gave up were the first free sectors. */
  lemma ClosedLoses(disk: seq<Block>, tags0: seq<Tag>, tags1: seq<Tag>, files: Files, id: nat, secs1: seq<nat>)
    requires World(disk, tags0, files) && id in files && Grew(tags0, tags1, id, files[id].secs, secs1)
    ensures var n := |secs1| - |files[id].secs|;
            && n <= |FreeList(tags0)|
            && LoseFrom(tags1, id, |files[id].secs|) == WrittenOff(tags0, Part(FreeList(tags0), 0, n))
  {
    OwnPositions(disk, tags0, files, id);
    GrewPrefix(tags0, tags1, id, files[id].secs, secs1);
    var news := News(files[id].secs, secs1);
    assert news == Part(FreeList(tags0), 0, |news|);
    forall t | 0 <= t < |tags0|
      ensures LoseFrom(tags1, id, |files[id].secs|)[t] == WrittenOff(tags0, news)[t]
    {
      ClosedLosesAt(disk, tags0, tags1, files, id, secs1, t);
    }
  }

  lemma ClosedLosesAt(disk: seq<Block>, tags0: seq<Tag>, tags1: seq<Tag>, files: Files, id: nat, secs1: seq<nat>, t: nat)
    requires World(disk, tags0, files) && id in files && Grew(tags0, tags1, id, files[id].secs, secs1) && t < |tags0| == |tags1|
    requires |files[id].secs| <= |secs1|
    ensures LoseFrom(tags1, id, |files[id].secs|)[t] == WrittenOff(tags0, News(files[id].secs, secs1))[t]
  {
    OwnPositions(disk, tags0, files, id);
    var news := News(files[id].secs, secs1);
    if t in news {
      var k :| 0 <= k < |news| && news[k] == t;
      assert tags1[secs1[|files[id].secs| + k]] == Own(id, |files[id].secs| + k);
    }
    if tags1[t] != tags0[t] {
      assert news[tags1[t].pos - |files[id].secs|] == t;
    }
  }
}
