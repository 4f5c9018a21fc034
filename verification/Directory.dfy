/** Directories (directory.c): 36-byte records in the directory's file, which refine a finite map. */
module Directories {
  import opened Blocks
  import opened Content
  import opened Volumes
  import Inodes

  /** A C string, without its final NUL. */
  type Name = seq<Byte>

  const NAME_MAX: nat := 30

  /** struct dir_entry */
  datatype Entry = Entry(sector: Word, name: Name, inUse: bool)

  const ENTRY_SIZE: nat := 36

  const SLASH: Byte := 47

  const DOT: Byte := 46

  /** The names that dir_lookup gives a meaning of its own: "." and "..". */
  predicate Dots(name: Name) { name == [DOT] || name == [DOT, DOT] }

  /** Fits in the name field with its NUL, and is no path. */
  predicate Nameable(name: Name) { |name| <= NAME_MAX && 0 !in name && SLASH !in name }

  /** The bytes of an entry: the sector, 31 bytes of name padded with NULs (strncpy), the flag. */
  function EncodeEntry(e: Entry): (b: seq<Byte>)
    ensures |b| == ENTRY_SIZE
  {
    seq(36, k requires 0 <= k < 36 =>
      if k < 4 then WordByte(e.sector, k)
      else if k < 35 then (if k - 4 < |e.name| then e.name[k - 4] else 0)
      else if e.inUse then 1 else 0)
  }

  /** The string that starts a buffer. */
  function CString(b: seq<Byte>): Name {
    if |b| == 0 || b[0] == 0 then [] else [b[0]] + CString(b[1..])
  }

  function DecodeEntry(b: seq<Byte>): Entry
    requires |b| == ENTRY_SIZE
  {
    Entry(WordAt(b, 0), CString(b[4..35]), b[35] != 0)
  }

  lemma {:induction false} CStringPadded(name: Name, b: seq<Byte>)
    requires 0 !in name && |name| < |b| && b[..|name|] == name && b[|name|] == 0
    ensures CString(b) == name
  {
    if name != [] {
      assert b[0] == name[0];
      assert b[1..][..|name| - 1] == name[1..];
      CStringPadded(name[1..], b[1..]);
      assert [name[0]] + name[1..] == name;
    }
  }

  /** Where the fields of struct dir_entry lie in its 36 bytes; NULs follow the name. */
  lemma EntryFields(e: Entry)
    requires Nameable(e.name)
    ensures var b, n := EncodeEntry(e), |e.name|;
            && WordAt(b, 0) == e.sector && b[4..4 + n] == e.name && (forall k :: 4 + n <= k < 35 ==> b[k] == 0)
            && b[35] == if e.inUse then 1 else 0
  {
    var b := EncodeEntry(e);
    WordFromBytes(b, 0, e.sector);
    forall k | 0 <= k < |e.name|
      ensures b[4..4 + |e.name|][k] == e.name[k]
    {
    }
  }

  /** An entry written to the directory is read back unchanged. */
  lemma EntryRoundTrip(e: Entry)
    requires Nameable(e.name)
    ensures DecodeEntry(EncodeEntry(e)) == e
  {
    var b, n := EncodeEntry(e), |e.name|;
    var field := b[4..35];
    EntryFields(e);
    assert field[..n] == b[4..4 + n];
    assert field[n] == b[4 + n];
    CStringPadded(e.name, field);
  }

  // ----- The directory's bytes -----

  /** The contents of a directory file with these entries. */
  function DirImage(slots: seq<Entry>): (r: seq<Byte>)
    ensures |r| == 36 * |slots|
  {
    seq(36 * |slots|, x requires 0 <= x < 36 * |slots| => EncodeEntry(slots[x / 36])[x % 36])
  }

  lemma SlotAt(x: nat, k: nat)
    ensures x / 36 == k <==> 36 * k <= x < 36 * k + 36
    ensures x / 36 == k ==> x % 36 == x - 36 * k
  {
  }

  /** Entry k lies at offset 36 k, across a sector boundary or not. */
  lemma ImageSlot(slots: seq<Entry>, k: nat)
    requires k < |slots|
    ensures DirImage(slots)[36 * k..36 * k + 36] == EncodeEntry(slots[k])
  {
    forall y | 0 <= y < 36
      ensures DirImage(slots)[36 * k + y] == EncodeEntry(slots[k])[y]
    {
      SlotAt(36 * k + y, k);
    }
  }

  /** The slots with entry e at k, which may be one past the end. */
  function Put(slots: seq<Entry>, k: nat, e: Entry): (r: seq<Entry>)
    requires k <= |slots|
    ensures |r| == if k < |slots| then |slots| else k + 1
  {
    if k < |slots| then slots[k := e] else slots + [e]
  }

  /** Writing an entry's bytes at its offset replaces that entry or adds one at the end. */
  lemma ImagePut(slots: seq<Entry>, k: nat, e: Entry)
    requires k <= |slots|
    ensures Spliced(DirImage(slots), 36 * k, EncodeEntry(e)) == DirImage(Put(slots, k, e))
  {
    forall x | 0 <= x < 36 * |Put(slots, k, e)|
      ensures Spliced(DirImage(slots), 36 * k, EncodeEntry(e))[x] == DirImage(Put(slots, k, e))[x]
    {
      SlotAt(x, k);
    }
  }

  // ----- The map that a directory represents -----

  /** The first slot from k on that is in use under NAME. */
  function FindFrom(slots: seq<Entry>, name: Name, k: nat): (r: nat)
    ensures k <= |slots| ==> k <= r <= |slots|
    decreases |slots| - k
  {
    if k >= |slots| then |slots|
    else if slots[k].inUse && slots[k].name == name then k
    else FindFrom(slots, name, k + 1)
  }

  /** Slot 0 is the parent's entry. */
  function Find(slots: seq<Entry>, name: Name): nat { FindFrom(slots, name, 1) }

  /** The first unused slot from k on. */
  function UnusedFrom(slots: seq<Entry>, k: nat): (r: nat)
    ensures k <= |slots| ==> k <= r <= |slots|
    ensures k <= r < |slots| ==> !slots[r].inUse
    ensures forall j :: k <= j < r && j < |slots| ==> slots[j].inUse
    decreases |slots| - k
  {
    if k >= |slots| then |slots| else if !slots[k].inUse then k else UnusedFrom(slots, k + 1)
  }

  function DictFrom(slots: seq<Entry>, k: nat): map<Name, Word>
    decreases |slots| - k
  {
    if k >= |slots| then map[]
    else if slots[k].inUse then DictFrom(slots, k + 1)[slots[k].name := slots[k].sector]
    else DictFrom(slots, k + 1)
  }

  /** The directory as a map from names to inode sectors. */
  function Dict(slots: seq<Entry>): map<Name, Word> { DictFrom(slots, 1) }

  function ListingFrom(slots: seq<Entry>, k: nat): seq<Name>
    decreases |slots| - k
  {
    if k >= |slots| then []
    else if slots[k].inUse then [slots[k].name] + ListingFrom(slots, k + 1)
    else ListingFrom(slots, k + 1)
  }

  /** The names in the order in which dir_readdir gives them. */
  function Listing(slots: seq<Entry>): seq<Name> { ListingFrom(slots, 1) }

  /** Well formed: slot 0 is in use, for the root directory as its own parent, every name can be
      stored, and no name is in use twice. */
  predicate Slots(slots: seq<Entry>) {
    && 0 < |slots| && slots[0].inUse && slots[0].sector == 1
    && (forall k :: 0 <= k < |slots| ==> Nameable(slots[k].name))
    && (forall j, k :: 1 <= j < k < |slots| && slots[j].inUse && slots[k].inUse ==> slots[j].name != slots[k].name)
  }

  /** Looking a name up in the slots is looking it up in the map. */
  lemma {:induction false} FindIsLookup(slots: seq<Entry>, name: Name, k: nat)
    requires Slots(slots) && 1 <= k <= |slots|
    ensures name in DictFrom(slots, k) <==> FindFrom(slots, name, k) < |slots|
    ensures var r := FindFrom(slots, name, k);
            r < |slots| ==> slots[r].inUse && slots[r].name == name && DictFrom(slots, k)[name] == slots[r].sector
    decreases |slots| - k
  {
    if k < |slots| {
      FindIsLookup(slots, name, k + 1);
    }
  }

  lemma {:induction false} UsedIsFound(slots: seq<Entry>, j: nat, k: nat)
    requires Slots(slots) && 1 <= k <= j < |slots| && slots[j].inUse
    ensures FindFrom(slots, slots[j].name, k) == j
    decreases j - k
  {
    if k < j {
      UsedIsFound(slots, j, k + 1);
    }
  }

  lemma {:induction false} SameTail(a: seq<Entry>, b: seq<Entry>, k: nat)
    requires |a| == |b| && forall j :: k <= j < |a| ==> a[j] == b[j]
    ensures DictFrom(a, k) == DictFrom(b, k) && ListingFrom(a, k) == ListingFrom(b, k)
    decreases |a| - k
  {
    if k < |a| {
      SameTail(a, b, k + 1);
    }
  }

  lemma {:induction false} DictKeys(slots: seq<Entry>, name: Name, k: nat)
    requires k <= |slots| && forall j :: k <= j < |slots| && slots[j].inUse ==> slots[j].name != name
    ensures name !in DictFrom(slots, k)
    decreases |slots| - k
  {
    if k < |slots| {
      DictKeys(slots, name, k + 1);
    }
  }

  lemma {:induction false} DictEnd(slots: seq<Entry>, e: Entry, k: nat)
    requires k <= |slots| && e.inUse && e.name !in DictFrom(slots, k)
    ensures DictFrom(slots + [e], k) == DictFrom(slots, k)[e.name := e.sector]
    decreases |slots| - k
  {
    if k < |slots| {
      DictEnd(slots, e, k + 1);
    } else {
      assert DictFrom(slots + [e], k + 1) == map[];
    }
  }

  lemma {:induction false} DictPut(slots: seq<Entry>, j: nat, e: Entry, k: nat)
    requires k <= j < |slots| && !slots[j].inUse && e.inUse && e.name !in DictFrom(slots, k)
    ensures DictFrom(slots[j := e], k) == DictFrom(slots, k)[e.name := e.sector]
    decreases j - k
  {
    if k < j {
      DictPut(slots, j, e, k + 1);
    } else {
      SameTail(slots, slots[j := e], k + 1);
    }
  }

  /** dir_add puts the new entry in the first unused slot: the map gains exactly that key. */
  lemma {:induction false} AddRefinesMap(slots: seq<Entry>, name: Name, sector: Word)
    requires Slots(slots) && Nameable(name) && name !in Dict(slots)
    ensures var slots1 := Put(slots, UnusedFrom(slots, 0), Entry(sector, name, true));
            Slots(slots1) && Dict(slots1) == Dict(slots)[name := sector]
  {
    var j := UnusedFrom(slots, 0);
    var e := Entry(sector, name, true);
    forall i | 1 <= i < |slots| && slots[i].inUse
      ensures slots[i].name != name
    {
      UsedIsFound(slots, i, 1);
      FindIsLookup(slots, slots[i].name, 1);
    }
    if j < |slots| {
      DictPut(slots, j, e, 1);
    } else {
      DictEnd(slots, e, 1);
    }
  }

  lemma {:induction false} DictClear(slots: seq<Entry>, j: nat, k: nat)
    requires Slots(slots) && 1 <= k <= j < |slots| && slots[j].inUse
    ensures DictFrom(slots[j := slots[j].(inUse := false)], k) == DictFrom(slots, k) - {slots[j].name}
    decreases j - k
  {
    var after := slots[j := slots[j].(inUse := false)];
    if k < j {
      DictClear(slots, j, k + 1);
    } else {
      SameTail(slots, after, k + 1);
      DictKeys(slots, slots[j].name, k + 1);
    }
  }

  /** dir_remove clears the flag of the entry it finds: the map loses exactly that key. */
  lemma RemoveRefinesMap(slots: seq<Entry>, name: Name)
    requires Slots(slots) && name in Dict(slots)
    ensures var j := Find(slots, name);
            && 1 <= j < |slots| && slots[j].sector == Dict(slots)[name] && slots[j].name == name
            && Slots(slots[j := slots[j].(inUse := false)])
            && Dict(slots[j := slots[j].(inUse := false)]) == Dict(slots) - {name}
  {
    FindIsLookup(slots, name, 1);
    DictClear(slots, Find(slots, name), 1);
  }

  lemma OneMoreKey(dict: map<Name, Word>, name: Name, sector: Word)
    requires name !in dict
    ensures |dict[name := sector]| == |dict| + 1
  {
    assert dict[name := sector].Keys == dict.Keys + {name};
  }

  lemma NewHead(names: seq<Name>, name: Name)
    requires name !in names
    requires forall i, j :: 0 <= i < j < |names| ==> names[i] != names[j]
    ensures forall n :: n in [name] + names <==> n == name || n in names
    ensures forall i, j :: 0 <= i < j < |[name] + names| ==> ([name] + names)[i] != ([name] + names)[j]
  {
  }

  /** The listing has every key of the map exactly once. */
  lemma {:induction false} ListingIsKeys(slots: seq<Entry>, k: nat)
    requires Slots(slots) && 1 <= k <= |slots|
    ensures forall n :: n in ListingFrom(slots, k) <==> n in DictFrom(slots, k)
    ensures |ListingFrom(slots, k)| == |DictFrom(slots, k)|
    ensures forall i, j :: 0 <= i < j < |ListingFrom(slots, k)| ==> ListingFrom(slots, k)[i] != ListingFrom(slots, k)[j]
    decreases |slots| - k
  {
    if k < |slots| {
      ListingIsKeys(slots, k + 1);
      if slots[k].inUse {
        DictKeys(slots, slots[k].name, k + 1);
        OneMoreKey(DictFrom(slots, k + 1), slots[k].name, slots[k].sector);
        NewHead(ListingFrom(slots, k + 1), slots[k].name);
      }
    }
  }

  /** And in the order of the slots. */
  lemma {:induction false} ListingInOrder(slots: seq<Entry>, k: nat)
    requires Slots(slots) && 1 <= k <= |slots|
    ensures Ordered(slots, ListingFrom(slots, k), k)
    decreases |slots| - k
  {
    if k < |slots| {
      ListingInOrder(slots, k + 1);
      if slots[k].inUse {
        UsedIsFound(slots, k, 1);
      }
    }
  }

  /** The entries of NAMES come one behind the other, from slot k on. */
  ghost predicate Ordered(slots: seq<Entry>, names: seq<Name>, k: nat) {
    && (forall i :: 0 <= i < |names| ==> k <= Find(slots, names[i]) < |slots|)
    && forall i, j :: 0 <= i < j < |names| ==> Find(slots, names[i]) < Find(slots, names[j])
  }

  // ----- The operations -----

  /** INODE is open on a directory whose file, in SECS, holds the entries SLOTS. */
  ghost predicate DirAt(v: Volume, inode: Inode, secs: seq<nat>, slots: seq<Entry>)
    reads v, inode
  {
    && v.Holds(inode, secs) && Slots(slots)
    && Bytes(v.disk, secs, inode.data.length) == DirImage(slots)
  }

  /** inode_read_at of one entry: short exactly at the end of the directory. */
  method ReadEntry(v: Volume, inode: Inode, ofs: nat, ghost k: nat, ghost secs: seq<nat>, ghost slots: seq<Entry>)
    returns (ok: bool, e: Entry)
    requires v.Ok() && DirAt(v, inode, secs, slots) && ofs == 36 * k
    modifies v.cache, v.cache.cache, v.cache.device
    ensures v.Ok() && (ok <==> k < |slots|) && (ok ==> e == slots[k])
  {
    var bytes := Inodes.ReadOpen(v, inode, ENTRY_SIZE, ofs, secs);
    ok := |bytes| == ENTRY_SIZE;
    e := Entry(0, [], false);
    SlotRead(slots, k);
    if ok {
      e := DecodeEntry(bytes);
    }
  }

  /** Reading 36 bytes from the k-th slot on gives the whole entry, exactly if there is one. */
  lemma SlotRead(slots: seq<Entry>, k: nat)
    requires Slots(slots)
    ensures |Slice(DirImage(slots), 36 * k, 36)| == 36 <==> k < |slots|
    ensures k < |slots| ==> DecodeEntry(Slice(DirImage(slots), 36 * k, 36)) == slots[k]
  {
    if k < |slots| {
      ImageSlot(slots, k);
      EntryRoundTrip(slots[k]);
    }
  }

  /** lookup */
  method Lookup(v: Volume, inode: Inode, name: Name, ghost secs: seq<nat>, ghost slots: seq<Entry>)
    returns (found: bool, e: Entry, ofs: nat)
    requires v.Ok() && DirAt(v, inode, secs, slots)
    modifies v.cache, v.cache.cache, v.cache.device
    ensures v.Ok() && (found <==> name in Dict(slots))
    ensures found ==> Find(slots, name) < |slots| && e == slots[Find(slots, name)] && ofs == 36 * Find(slots, name)
    ensures found ==> e.sector == Dict(slots)[name]
  {
    FindIsLookup(slots, name, 1);
    ofs := ENTRY_SIZE;
    found := false;
    var ok;
    ok, e := ReadEntry(v, inode, ofs, 1, secs, slots);
    ghost var k := 1;
    while ok
      invariant v.Ok() && ofs == 36 * k && 1 <= k <= |slots| && (ok <==> k < |slots|) && (ok ==> e == slots[k])
      invariant FindFrom(slots, name, k) == Find(slots, name)
      decreases |slots| - k
    {
      if e.inUse && name == e.name {
        found := true;
        return;
      }
      ofs := ofs + ENTRY_SIZE;
      k := k + 1;
      ok, e := ReadEntry(v, inode, ofs, k, secs, slots);
    }
  }

  /** The loop of dir_add that finds a free slot, or the end of the directory. */
  method FreeSlot(v: Volume, inode: Inode, ghost secs: seq<nat>, ghost slots: seq<Entry>) returns (ofs: nat)
    requires v.Ok() && DirAt(v, inode, secs, slots)
    modifies v.cache, v.cache.cache, v.cache.device
    ensures v.Ok() && ofs == 36 * UnusedFrom(slots, 0)
  {
    ofs := 0;
    var ok, e := ReadEntry(v, inode, ofs, 0, secs, slots);
    ghost var k := 0;
    while ok && e.inUse
      invariant v.Ok() && ofs == 36 * k && k <= |slots| && (ok <==> k < |slots|) && (ok ==> e == slots[k])
      invariant UnusedFrom(slots, k) == UnusedFrom(slots, 0)
      decreases |slots| - k
    {
      ofs := ofs + ENTRY_SIZE;
      k := k + 1;
      ok, e := ReadEntry(v, inode, ofs, k, secs, slots);
    }
  }

  /** struct dir: a cursor over an open directory. */
  class Dir {
    const inode: Inode
    var pos: nat

    /** dir_open */
    constructor (inode: Inode)
      ensures this.inode == inode && pos == ENTRY_SIZE
    {
      this.inode := inode;
      pos := ENTRY_SIZE;
    }

    /** dir_readdir: the next entry in use, and the cursor just past it. */
    method ReadDir(v: Volume, ghost k: nat, ghost secs: seq<nat>, ghost slots: seq<Entry>)
      returns (more: bool, name: Name, ghost next: nat)
      requires v.Ok() && DirAt(v, inode, secs, slots) && pos == 36 * k && k <= |slots|
      modifies this, v.cache, v.cache.cache, v.cache.device
      ensures v.Ok() && pos == 36 * next && NextName(slots, k, more, name, next)
    {
      more, name, next := false, [], k;
      var ok, e := ReadEntry(v, inode, pos, next, secs, slots);
      while ok
        invariant v.Ok() && pos == 36 * next && k <= next <= |slots| && (ok <==> next < |slots|) && (ok ==> e == slots[next])
        invariant UsedFrom(slots, next) == UsedFrom(slots, k)
        decreases |slots| - next
      {
        pos := pos + ENTRY_SIZE;
        next := next + 1;
        if e.inUse {
          more, name := true, e.name;
          return;
        }
        ok, e := ReadEntry(v, inode, pos, next, secs, slots);
      }
    }
  }

  /** From slot k on, the next entry in use has this NAME and stands just before NEXT, or there is none. */
  predicate NextName(slots: seq<Entry>, k: nat, more: bool, name: Name, next: nat) {
    var j := UsedFrom(slots, k);
    && k <= next <= |slots|
    && (more <==> j < |slots|)
    && (if more then next == j + 1 && name == slots[j].name else next == |slots|)
  }

  /** The first slot in use from k on. */
  function UsedFrom(slots: seq<Entry>, k: nat): (r: nat)
    ensures k <= |slots| ==> k <= r <= |slots|
    ensures k <= r < |slots| ==> slots[r].inUse
    ensures forall j :: k <= j < r && j < |slots| ==> !slots[j].inUse
    decreases |slots| - k
  {
    if k >= |slots| then |slots| else if slots[k].inUse then k else UsedFrom(slots, k + 1)
  }

  lemma {:induction false} ListingStep(slots: seq<Entry>, k: nat)
    requires k <= |slots|
    ensures var j := UsedFrom(slots, k);
            ListingFrom(slots, k) == if j < |slots| then [slots[j].name] + ListingFrom(slots, j + 1) else []
    decreases |slots| - k
  {
    if k < |slots| && !slots[k].inUse {
      ListingStep(slots, k + 1);
    }
  }

  lemma {:induction false} ListingNext(slots: seq<Entry>, k: nat, more: bool, name: Name, next: nat)
    requires NextName(slots, k, more, name, next)
    ensures ListingFrom(slots, k) == if more then [name] + ListingFrom(slots, next) else []
  {
    ListingStep(slots, k);
  }

  /** One dir_readdir of fsutil_ls: the next name of the listing. */
  method NextListed(v: Volume, dir: Dir, ghost k: nat, ghost secs: seq<nat>, ghost slots: seq<Entry>)
    returns (more: bool, name: Name, ghost next: nat)
    requires v.Ok() && DirAt(v, dir.inode, secs, slots) && dir.pos == 36 * k && k <= |slots|
    modifies dir, v.cache, v.cache.cache, v.cache.device
    ensures v.Ok() && dir.pos == 36 * next && k <= next <= |slots| && (more ==> k < next)
    ensures ListingFrom(slots, k) == if more then [name] + ListingFrom(slots, next) else []
  {
    more, name, next := dir.ReadDir(v, k, secs, slots);
    ListingNext(slots, k, more, name, next);
  }

  /** fsutil_ls: repeated dir_readdir gives the listing. */
  method ListNames(v: Volume, inode: Inode, ghost secs: seq<nat>, ghost slots: seq<Entry>) returns (names: seq<Name>)
    requires v.Ok() && DirAt(v, inode, secs, slots)
    modifies v.cache, v.cache.cache, v.cache.device
    ensures v.Ok() && names == Listing(slots)
  {
    names := [];
    var dir := new Dir(inode);
    ghost var k: nat, rest := 1, Listing(slots);
    var more, name;
    more, name, k := NextListed(v, dir, 1, secs, slots);
    while more
      invariant v.Ok() && dir.pos == 36 * k && k <= |slots|
      invariant Listing(slots) == names + rest && rest == if more then [name] + ListingFrom(slots, k) else []
      decreases |slots| - k, more
    {
      rest := ListingFrom(slots, k);
      NamesMove(names, name, rest);
      names := names + [name];
      more, name, k := NextListed(v, dir, k, secs, slots);
    }
  }

  lemma NamesMove(names: seq<Name>, name: Name, rest: seq<Name>)
    ensures names + ([name] + rest) == (names + [name]) + rest
  {
  }
}
