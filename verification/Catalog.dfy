/** Names and contents: the directory's map tied to the files it names. */
module Catalogs {
  import opened Blocks
  import opened Ownership
  import opened Directories
  import opened Reserving

  /** Every name stands for a plain file of its own, and every file but the free map and the root
      directory has a name. */
  ghost predicate Named(dict: map<Name, Word>, files: Files) {
    NamedBody(dict, files) == true
  }

  ghost predicate NamedBody(dict: map<Name, Word>, files: Files) {
    forall b {:trigger Open(b)} :: Open(b) ==>
      && (forall n :: n in dict ==> 2 <= dict[n] && dict[n] in files && !files[dict[n]].d.isDir)
      && (forall m, n :: m in dict && n in dict && m != n ==> dict[m] != dict[n])
      && (forall id :: id in files && id >= 2 ==> exists n :: n in dict && dict[n] == id)
  }

  lemma NamedFacts(dict: map<Name, Word>, files: Files, name: Name)
    requires Named(dict, files) && name in dict
    ensures 2 <= dict[name] && dict[name] in files && !files[dict[name]].d.isDir
    ensures forall n :: n in dict && n != name ==> dict[n] != dict[name] && dict[n] in files
  {
    assert Open(true);
  }

  /** Without names there is no plain file. */
  lemma NamedNone(files: Files)
    requires forall id :: id in files ==> id < 2
    ensures Named(map[], files)
  {
  }

  /** The file system as its user sees it: the bytes under each name. */
  ghost function ViewOf(disk: seq<Block>, files: Files, dict: map<Name, Word>): map<Name, seq<Byte>> {
    map n | n in dict && dict[n] in files :: FileBytes(disk, files[dict[n]])
  }

  lemma NamedCreate(dict: map<Name, Word>, files: Files, name: Name, id: Word, f: FileState)
    requires Named(dict, files) && name !in dict && id !in files && id >= 2 && !f.d.isDir
    ensures Named(dict[name := id], files[id := f])
  {
    assert Open(true);
    var dict1, files1 := dict[name := id], files[id := f];
    forall j | j in files1 && j >= 2
      ensures exists n :: n in dict1 && dict1[n] == j
    {
      if j == id {
        assert dict1[name] == id;
      } else {
        var n :| n in dict && dict[n] == j;
        assert dict1[n] == j;
      }
    }
  }

  lemma ViewCreate(disk0: seq<Block>, disk1: seq<Block>, dict: map<Name, Word>, files: Files, name: Name, id: Word, f: FileState)
    requires Named(dict, files) && name !in dict && id !in files && SamePlain(disk0, disk1, files, id)
    ensures ViewOf(disk1, files[id := f], dict[name := id]) == ViewOf(disk0, files, dict)[name := FileBytes(disk1, f)]
  {
    assert Open(true);
  }

  lemma NamedRemove(dict: map<Name, Word>, files: Files, name: Name)
    requires Named(dict, files) && name in dict
    ensures Named(dict - {name}, files - {dict[name] as nat})
  {
    assert Open(true);
    var id: nat := dict[name];
    var dict1, files1 := dict - {name}, files - {id};
    forall j | j in files1 && j >= 2
      ensures exists n :: n in dict1 && dict1[n] == j
    {
      var n :| n in dict && dict[n] == j;
      assert n in dict1;
    }
  }

  lemma ViewRemove(disk0: seq<Block>, disk1: seq<Block>, dict: map<Name, Word>, files: Files, name: Name)
    requires Named(dict, files) && name in dict && SamePlain(disk0, disk1, files, dict[name])
    ensures ViewOf(disk1, files - {dict[name] as nat}, dict - {name}) == ViewOf(disk0, files, dict) - {name}
  {
    assert Open(true);
  }

  lemma NamedWrite(dict: map<Name, Word>, files: Files, id: nat, f: FileState)
    requires Named(dict, files) && id in files && f.d.isDir == files[id].d.isDir
    ensures Named(dict, files[id := f])
  {
    assert Open(true);
  }

  lemma NamedRoot(dict: map<Name, Word>, files: Files, f: FileState)
    requires Named(dict, files)
    ensures Named(dict, files[1 := f])
  {
    assert Open(true);
  }

  /** Writing a named file changes what stands under its name only. */
  lemma ViewWrite(disk0: seq<Block>, disk1: seq<Block>, dict: map<Name, Word>, files: Files, name: Name, f: FileState)
    requires Named(dict, files) && name in dict && SamePlain(disk0, disk1, files, dict[name])
    ensures ViewOf(disk1, files[dict[name] as nat := f], dict) == ViewOf(disk0, files, dict)[name := FileBytes(disk1, f)]
  {
    assert Open(true);
  }

  /** Writing the directory itself, or losing sectors, changes no file's contents. */
  lemma ViewKept(disk0: seq<Block>, disk1: seq<Block>, dict: map<Name, Word>, files0: Files, files1: Files, id: nat)
    requires Named(dict, files0) && SamePlain(disk0, disk1, files0, id) && SameFiles(files0, files1, id)
    requires id == 1 || id !in files0
    requires id == 1 ==> 1 in files1
    ensures ViewOf(disk1, files1, dict) == ViewOf(disk0, files0, dict)
  {
    assert Open(true);
  }
}
