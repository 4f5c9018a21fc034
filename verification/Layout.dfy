/** The geometry of a file (inode.h, inode.c): which of its sectors are data, which are index
    blocks, and in what order they are allocated. All sectors of a file form one sequence SECS in
    allocation order; data index i stands at position Pos(i) of it. */
module Layout {
  import opened Blocks

  /** DIRECT_BLOCKS_COUNT: the direct entries of an inode, and the position of the indirect block. */
  const DIRECT: nat := 123

  /** The data sectors in front of the doubly indirect zone. */
  const SINGLE_END: nat := 251

  /** The position of the doubly indirect block. */
  const DOUBLY_POS: nat := 252

  /** The position of the first index block behind it. */
  const FIRST_GROUP: nat := 253

  /** The positions of an index block and its data sectors. */
  const GROUP: nat := 129

  /** The data sectors of the largest file. */
  const MAX_SECTORS: nat := 16635

  /** bytes_to_sectors */
  function Sectors(length: nat): nat { (length + 511) / 512 }

  /** n sectors hold LENGTH bytes, and no fewer do. */
  predicate Fill(n: nat, length: int) { 0 <= length <= 512 * n && (n > 0 ==> length > 512 * (n - 1)) }

  /** The data sectors that inode_reserve goes for: none when the length is negative. */
  function Wanted(length: int): nat { if length < 0 then 0 else Sectors(length) }

  /** Where data sector i stands in the allocation order. */
  function Pos(i: nat): nat {
    if i < DIRECT then i else if i < SINGLE_END then i + 1 else i + 3 + (i - SINGLE_END) / PER_BLOCK
  }

  /** The number of sectors, index blocks included, that hold n data sectors. */
  function Cost(n: nat): nat {
    n + (if n > DIRECT then 1 else 0) + (if n > SINGLE_END then 1 + (n - SINGLE_END + (PER_BLOCK - 1)) / PER_BLOCK else 0)
  }

  /** bytes_to_sectors is the least number of sectors that hold the bytes, and with the index blocks they
      cost this many. */
  lemma BytesCost(length: nat)
    ensures forall n: nat :: length <= 512 * n <==> Sectors(length) <= n
    ensures Fill(Sectors(length), length)
    ensures forall n: nat :: Fill(n, length) ==>
              && Sectors(length) == n
              && Cost(Sectors(length)) == n + (if n > 123 then 1 else 0) + (if n > 251 then 1 + (n - 251 + 127) / 128 else 0)
  {
  }

  // The remainder in the next predicate is costly where it is not needed, so its body is guarded
  // by a marker: a proof that mentions OpenIndex(true) sees it.
  predicate OpenIndex(b: bool) { b }

  /** Position q holds an index block. */
  ghost predicate IsIndex(q: int) {
    forall b {:trigger OpenIndex(b)} :: OpenIndex(b) ==> q == DIRECT || q == DOUBLY_POS || (q >= FIRST_GROUP && (q - FIRST_GROUP) % GROUP == 0)
  }

  lemma IndexIs(q: int)
    ensures IsIndex(q) <==> q == DIRECT || q == DOUBLY_POS || (q >= FIRST_GROUP && (q - FIRST_GROUP) % GROUP == 0)
  {
    assert OpenIndex(true);
  }

  /** The data index at a position that is not an index block. */
  function DataIndex(q: nat): nat {
    if q < DIRECT then q else if q < FIRST_GROUP + 1 then q - 1 else q - 3 - (q - (FIRST_GROUP + 1)) / GROUP
  }

  lemma PosSplit(i: nat)
    requires i >= SINGLE_END
    ensures var a, b := (i - SINGLE_END) / PER_BLOCK, (i - SINGLE_END) % PER_BLOCK;
            Pos(i) == FIRST_GROUP + 1 + GROUP * a + b && (Pos(i) - (FIRST_GROUP + 1)) / GROUP == a && (Pos(i) - FIRST_GROUP) % GROUP == b + 1
  {
    var a, b := (i - SINGLE_END) / PER_BLOCK, (i - SINGLE_END) % PER_BLOCK;
    assert i - SINGLE_END == PER_BLOCK * a + b;
    assert Pos(i) - (FIRST_GROUP + 1) == GROUP * a + b;
    assert Pos(i) - FIRST_GROUP == GROUP * a + (b + 1);
  }

  /** Data positions are exactly the positions of data indices. */
  lemma PosIsData(i: nat)
    ensures !IsIndex(Pos(i)) && DataIndex(Pos(i)) == i
  {
    IndexIs(Pos(i));
    if i >= SINGLE_END {
      PosSplit(i);
    }
  }

  lemma DataIsPos(q: nat)
    requires !IsIndex(q)
    ensures Pos(DataIndex(q)) == q
  {
    IndexIs(q);
    if q >= FIRST_GROUP + 1 {
      var a, b := (q - (FIRST_GROUP + 1)) / GROUP, (q - (FIRST_GROUP + 1)) % GROUP;
      assert q == FIRST_GROUP + 1 + GROUP * a + b;
      assert (GROUP * (a + 1)) % GROUP == 0;
      assert b == PER_BLOCK ==> q - FIRST_GROUP == GROUP * (a + 1);
      assert DataIndex(q) == SINGLE_END + PER_BLOCK * a + b;
    }
  }

  /** Consecutive data sectors are one, two or three positions apart: the fragmentation threshold. */
  lemma Gaps(i: nat)
    ensures 1 <= Pos(i + 1) - Pos(i) <= 3
    ensures Pos(i + 1) - Pos(i) == 3 <==> i == SINGLE_END - 1
    ensures Pos(i + 1) - Pos(i) == 2 <==> i == DIRECT - 1 || (i > SINGLE_END - 1 && (i - (SINGLE_END - 1)) % PER_BLOCK == 0)
  {
  }

  lemma {:induction false} PosIncreases(i: nat, j: nat)
    requires i <= j
    ensures Pos(j) - Pos(i) >= j - i
  {
    if i < j {
      Gaps(j - 1);
      PosIncreases(i, j - 1);
    }
  }

  lemma PosInjective(i: nat, j: nat)
    ensures Pos(i) == Pos(j) ==> i == j
  {
    PosIsData(i);
    PosIsData(j);
  }

  /** A file ends with its last data sector. */
  lemma CostIsEnd(n: nat)
    requires n > 0
    ensures Cost(n) == Pos(n - 1) + 1
  {
  }

  lemma InFile(i: nat, n: nat)
    ensures i < n <==> Pos(i) < Cost(n)
  {
    if n > 0 {
      CostIsEnd(n);
      if i < n {
        PosIncreases(i, n - 1);
      } else {
        PosIncreases(n - 1, i);
      }
    }
  }

  lemma CostGrows(m: nat, n: nat)
    requires m <= n
    ensures Cost(m) <= Cost(n)
  {
  }

  // ----- The three zones and two index levels -----

  /** Data sectors below an index entry of the given level. */
  function Unit(level: nat): nat { if level <= 1 then 1 else PER_BLOCK }

  function Capacity(level: nat): nat { if level == 0 then 1 else if level == 1 then PER_BLOCK else PER_BLOCK * PER_BLOCK }

  /** The position of child j of the index block at position p. */
  function Child(level: nat, p: nat, j: nat): nat {
    if level <= 1 then p + 1 + j else p + 1 + GROUP * j
  }

  /** Sectors under an index block that holds m data sectors, itself excluded. */
  function KidsCost(level: nat, m: nat): nat {
    if level <= 1 then m else m + (m + (PER_BLOCK - 1)) / PER_BLOCK
  }

  function LevelCost(level: nat, m: nat): nat {
    if level == 0 then m else 1 + KidsCost(level, m)
  }

  /** The positions that a subtree may occupy. */
  function Span(level: nat): nat { if level == 0 then 1 else if level == 1 then GROUP else 1 + PER_BLOCK * GROUP }

  // ----- Sector tags and the free list -----

  /** What a sector is used for: part of the file whose inode is in sector ID, at position POS of
      its sectors (-1 for the inode itself), or allocated but unreachable. */
  datatype Tag = Free | Own(id: nat, pos: int) | Lost

  /** The free sectors in increasing order. */
  function FreeFrom(tags: seq<Tag>, i: nat): (r: seq<nat>)
    requires i <= |tags|
    ensures forall k :: 0 <= k < |r| ==> i <= r[k] < |tags| && tags[r[k]] == Free
    decreases |tags| - i
  {
    if i == |tags| then []
    else if tags[i] == Free then [i] + FreeFrom(tags, i + 1)
    else FreeFrom(tags, i + 1)
  }

  function FreeList(tags: seq<Tag>): seq<nat> { FreeFrom(tags, 0) }

  lemma {:induction false} FreeDistinct(tags: seq<Tag>, i: nat)
    requires i <= |tags|
    ensures forall j, k :: 0 <= j < k < |FreeFrom(tags, i)| ==> FreeFrom(tags, i)[j] != FreeFrom(tags, i)[k]
    decreases |tags| - i
  {
    if i < |tags| {
      FreeDistinct(tags, i + 1);
    }
  }

  lemma {:induction false} FreeSuffix(a: seq<Tag>, b: seq<Tag>, i: nat)
    requires i <= |a| == |b|
    requires forall t :: i <= t < |a| ==> (a[t] == Free <==> b[t] == Free)
    ensures FreeFrom(a, i) == FreeFrom(b, i)
    decreases |a| - i
  {
    if i < |a| {
      FreeSuffix(a, b, i + 1);
    }
  }

  lemma {:induction false} FreeSkip(tags: seq<Tag>, i: nat, x: nat)
    requires i <= x <= |tags|
    requires forall t :: i <= t < x ==> tags[t] != Free
    ensures FreeFrom(tags, i) == FreeFrom(tags, x)
    decreases x - i
  {
    if i < x {
      FreeSkip(tags, i + 1, x);
    }
  }

  /** Taking the least free sector removes the head of the free list. */
  lemma TakeFirstFree(tags: seq<Tag>, x: nat, tag: Tag)
    requires x < |tags| && tags[x] == Free && tag != Free
    requires forall t :: 0 <= t < x ==> tags[t] != Free
    ensures FreeList(tags) != [] && FreeList(tags)[0] == x
    ensures FreeList(tags[x := tag]) == FreeList(tags)[1..]
  {
    var after := tags[x := tag];
    FreeSkip(tags, 0, x);
    FreeSkip(after, 0, x + 1);
    FreeSuffix(tags, after, x + 1);
  }

  lemma NoneFree(tags: seq<Tag>)
    requires forall t :: 0 <= t < |tags| ==> tags[t] != Free
    ensures FreeList(tags) == []
  {
    FreeSkip(tags, 0, |tags|);
  }

  lemma FirstFree(tags: seq<Tag>)
    requires FreeList(tags) != []
    ensures FreeList(tags)[0] < |tags| && tags[FreeList(tags)[0]] == Free
    ensures forall t :: 0 <= t < FreeList(tags)[0] ==> tags[t] != Free
  {
    FirstFreeFrom(tags, 0);
  }

  lemma {:induction false} FirstFreeFrom(tags: seq<Tag>, i: nat)
    requires i <= |tags| && FreeFrom(tags, i) != []
    ensures forall t :: i <= t < FreeFrom(tags, i)[0] ==> tags[t] != Free
    decreases |tags| - i
  {
    if tags[i] != Free {
      FirstFreeFrom(tags, i + 1);
    }
  }

  /** Releasing one sector lengthens the free list by one. */
  lemma {:induction false} ReleaseOne(tags: seq<Tag>, x: nat, i: nat)
    requires i <= |tags| && x < |tags| && tags[x] != Free
    ensures |FreeFrom(tags[x := Free], i)| == |FreeFrom(tags, i)| + (if i <= x then 1 else 0)
    decreases |tags| - i
  {
    if i < |tags| {
      ReleaseOne(tags, x, i + 1);
    }
  }

  /** Which allocated sectors have an owner does not matter to the free list. */
  lemma LoseKeepsFree(tags: seq<Tag>, id: nat)
    ensures FreeList(Lose(tags, id)) == FreeList(tags)
  {
    FreeSuffix(Lose(tags, id), tags, 0);
  }

  // ----- A file's claim on its sectors -----

  /** The sectors SECS belong to file ID, each at its own position: in particular they are
      distinct, allocated, and shared with no other file. Sector 0 is never one of them. */
  ghost predicate Claims(tags: seq<Tag>, id: nat, secs: seq<nat>) {
    forall q :: 0 <= q < |secs| ==> 0 < secs[q] < |tags| && tags[secs[q]] == Own(id, q)
  }

  function At(secs: seq<nat>, p: nat): nat { if p < |secs| then secs[p] else 0 }

  /** The n elements of S from LO on. */
  function Part(s: seq<nat>, lo: nat, n: nat): (r: seq<nat>)
    requires lo + n <= |s|
    ensures |r| == n
  {
    seq(n, k requires 0 <= k < n => s[lo + k])
  }

  /** The first sector, which holds the free map's inode. */
  function Sector0(disk: seq<Block>): Block { if |disk| > 0 then disk[0] else Zeros() }

  /** The sectors of file ID written off. */
  function Lose(tags: seq<Tag>, id: nat): (r: seq<Tag>)
    ensures |r| == |tags|
  {
    seq(|tags|, t requires 0 <= t < |tags| => if tags[t].Own? && tags[t].id == id then Lost else tags[t])
  }

  /** The sectors of file ID from position FROM on written off. */
  function LoseFrom(tags: seq<Tag>, id: nat, from: nat): (r: seq<Tag>)
    ensures |r| == |tags|
  {
    seq(|tags|, t requires 0 <= t < |tags| =>
      if tags[t].Own? && tags[t].id == id && tags[t].pos >= from then Lost else tags[t])
  }

  lemma LoseFromKeepsFree(tags: seq<Tag>, id: nat, from: nat)
    ensures FreeList(LoseFrom(tags, id, from)) == FreeList(tags)
  {
    FreeSuffix(LoseFrom(tags, id, from), tags, 0);
  }

  /** What SECS1 has beyond its prefix SECS0. */
  function News(secs0: seq<nat>, secs1: seq<nat>): (r: seq<nat>)
    requires |secs0| <= |secs1|
    ensures |r| == |secs1| - |secs0|
  {
    seq(|secs1| - |secs0|, k requires 0 <= k < |secs1| - |secs0| => secs1[|secs0| + k])
  }

  /** Growth of file ID from SECS0 to SECS1: the new sectors are the first free ones, in order,
      and no other sector changes hands. */
  ghost predicate Grew(tags0: seq<Tag>, tags1: seq<Tag>, id: nat, secs0: seq<nat>, secs1: seq<nat>) {
    && |tags1| == |tags0|
    && secs0 <= secs1
    && FreeList(tags0) == News(secs0, secs1) + FreeList(tags1)
    && Claims(tags1, id, secs1)
    && forall t :: 0 <= t < |tags0| ==>
         tags1[t] == tags0[t]
         || (tags0[t] == Free && tags1[t].Own? && tags1[t].id == id && |secs0| <= tags1[t].pos < |secs1|
             && secs1[tags1[t].pos] == t)
  }

  lemma GrewNot(tags: seq<Tag>, id: nat, secs: seq<nat>)
    requires Claims(tags, id, secs)
    ensures Grew(tags, tags, id, secs, secs)
  {
    assert News(secs, secs) == [];
  }

  lemma GrewOne(tags: seq<Tag>, id: nat, secs: seq<nat>)
    requires Claims(tags, id, secs) && FreeList(tags) != [] && FreeList(tags)[0] > 0
    ensures var x := FreeList(tags)[0];
            x < |tags| && Grew(tags, tags[x := Own(id, |secs|)], id, secs, secs + [x])
  {
    var x := FreeList(tags)[0];
    FirstFree(tags);
    TakeFirstFree(tags, x, Own(id, |secs|));
    assert News(secs, secs + [x]) == [x];
  }

  lemma GrewMore(tags0: seq<Tag>, tags1: seq<Tag>, tags2: seq<Tag>, id: nat, secs0: seq<nat>, secs1: seq<nat>, secs2: seq<nat>)
    requires Grew(tags0, tags1, id, secs0, secs1) && Grew(tags1, tags2, id, secs1, secs2)
    ensures Grew(tags0, tags2, id, secs0, secs2)
  {
    assert News(secs0, secs2) == News(secs0, secs1) + News(secs1, secs2);
  }

  /** In particular the file takes a prefix of the free list, and the rest stays free. */
  lemma GrewPrefix(tags0: seq<Tag>, tags1: seq<Tag>, id: nat, secs0: seq<nat>, secs1: seq<nat>)
    requires Grew(tags0, tags1, id, secs0, secs1)
    ensures var d := |secs1| - |secs0|;
            && d <= |FreeList(tags0)|
            && secs1 == secs0 + FreeList(tags0)[..d]
            && FreeList(tags1) == FreeList(tags0)[d..]
  {
    var d, f := |secs1| - |secs0|, FreeList(tags0);
    assert f[..d] == News(secs0, secs1) && f[d..] == FreeList(tags1);
  }

  // ----- The tree of index blocks on the disk -----

  /** The index blocks of the subtree at position p hold exactly the sectors of SECS at the
      children's positions, and null entries past the end. */
  ghost predicate Tree(disk: seq<Block>, secs: seq<nat>, level: nat, p: nat)
    decreases level
  {
    level > 0 && p < |secs| ==>
      && secs[p] < |disk|
      && (forall j :: 0 <= j < PER_BLOCK ==> Words(disk[secs[p]])[j] == At(secs, Child(level, p, j)))
      && (level > 1 ==> forall j :: 0 <= j < PER_BLOCK ==> Tree(disk, secs, level - 1, Child(level, p, j)))
  }

  lemma ChildIsIndex(j: nat)
    ensures IsIndex(Child(2, DOUBLY_POS, j)) && Child(2, DOUBLY_POS, j) == FIRST_GROUP + GROUP * j
  {
    IndexIs(FIRST_GROUP + GROUP * j);
    assert (GROUP * j) % GROUP == 0;
  }

  /** The tree depends only on the index blocks. */
  lemma {:induction false} TreeFrame(disk0: seq<Block>, disk1: seq<Block>, secs: seq<nat>)
    requires |disk0| == |disk1|
    requires forall q :: 0 <= q < |secs| && IsIndex(q) && secs[q] < |disk0| ==> disk0[secs[q]] == disk1[secs[q]]
    ensures Tree(disk0, secs, 1, DIRECT) ==> Tree(disk1, secs, 1, DIRECT)
    ensures Tree(disk0, secs, 2, DOUBLY_POS) ==> Tree(disk1, secs, 2, DOUBLY_POS)
    ensures forall j: nat :: Tree(disk0, secs, 1, Child(2, DOUBLY_POS, j)) ==> Tree(disk1, secs, 1, Child(2, DOUBLY_POS, j))
  {
    IndexIs(DIRECT);
    IndexIs(DOUBLY_POS);
    forall j: nat
      ensures Tree(disk0, secs, 1, Child(2, DOUBLY_POS, j)) ==> Tree(disk1, secs, 1, Child(2, DOUBLY_POS, j))
    {
      ChildIsIndex(j);
    }
  }

  /** struct inode_disk */
  datatype InodeDisk = InodeDisk(direct: seq<Word>, indirect: Word, doubly: Word, isDir: bool, length: Word, magic: Word)

  const INODE_MAGIC: Word := 0x494e4f44

  function EmptyInode(length: Word, isDir: bool): InodeDisk {
    InodeDisk(seq(DIRECT, _ => 0), 0, 0, isDir, length, INODE_MAGIC)
  }

  /** The inode's entries and index blocks describe the sectors SECS. */
  ghost predicate Rep(disk: seq<Block>, d: InodeDisk, secs: seq<nat>) {
    && |d.direct| == DIRECT
    && (forall i :: 0 <= i < DIRECT ==> d.direct[i] == At(secs, i))
    && d.indirect == At(secs, DIRECT)
    && d.doubly == At(secs, DOUBLY_POS)
    && Tree(disk, secs, 1, DIRECT)
    && Tree(disk, secs, 2, DOUBLY_POS)
  }

  lemma RepFrame(disk0: seq<Block>, disk1: seq<Block>, d: InodeDisk, secs: seq<nat>)
    requires Rep(disk0, d, secs) && |disk0| == |disk1|
    requires forall q :: 0 <= q < |secs| && IsIndex(q) && secs[q] < |disk0| ==> disk0[secs[q]] == disk1[secs[q]]
    ensures Rep(disk1, d, secs)
  {
    TreeFrame(disk0, disk1, secs);
  }

  /** Of a file of N sectors, the index blocks on the path to data index i are allocated. */
  predicate PathIn(n: nat, i: nat) {
    i < MAX_SECTORS ==> (DIRECT <= i < SINGLE_END ==> DIRECT < n) && (i >= SINGLE_END ==> Child(2, DOUBLY_POS, (i - SINGLE_END) / PER_BLOCK) < n)
  }

  lemma AllocatedPath(n: nat, i: nat)
    requires Pos(i) < n
    ensures PathIn(n, i)
  {
    if i >= SINGLE_END {
      PosSplit(i);
    }
  }

  /** index_to_sector as a path through the tree: the entry for data index i is its sector, or null
      if it has none. */
  lemma EntryPath(disk: seq<Block>, d: InodeDisk, secs: seq<nat>, i: nat)
    requires Rep(disk, d, secs) && PathIn(|secs|, i)
    ensures i < DIRECT ==> d.direct[i] == At(secs, Pos(i))
    ensures DIRECT <= i < SINGLE_END ==> d.indirect < |disk| && Words(disk[d.indirect])[i - DIRECT] == At(secs, Pos(i))
    ensures i >= SINGLE_END && i < MAX_SECTORS ==>
              var a, b := (i - SINGLE_END) / PER_BLOCK, (i - SINGLE_END) % PER_BLOCK;
              && a < PER_BLOCK && d.doubly < |disk| && Words(disk[d.doubly])[a] < |disk|
              && Words(disk[Words(disk[d.doubly])[a]])[b] == At(secs, Pos(i))
  {
    if i >= SINGLE_END && i < MAX_SECTORS {
      var a, b := (i - SINGLE_END) / PER_BLOCK, (i - SINGLE_END) % PER_BLOCK;
      PosSplit(i);
      assert Tree(disk, secs, 1, Child(2, DOUBLY_POS, a));
      assert Child(1, Child(2, DOUBLY_POS, a), b) == Pos(i);
    } else if DIRECT <= i < SINGLE_END {
      assert Child(1, DIRECT, i - DIRECT) == Pos(i);
    }
  }

  function InodeWords(d: InodeDisk): (ws: seq<Word>)
    requires |d.direct| == DIRECT
    ensures |ws| == PER_BLOCK
  {
    seq(PER_BLOCK, i requires 0 <= i < PER_BLOCK =>
      if i < DIRECT then d.direct[i]
      else if i == DIRECT then d.indirect
      else if i == DIRECT + 1 then d.doubly
      else if i == DIRECT + 2 then (if d.isDir then 1 else 0)
      else if i == DIRECT + 3 then d.length
      else d.magic)
  }

  /** The inode as its sector, and back. */
  function EncodeInode(d: InodeDisk): Block
    requires |d.direct| == DIRECT
  {
    FromWords(InodeWords(d))
  }

  function OfWords(ws: seq<Word>): (d: InodeDisk)
    requires |ws| == PER_BLOCK
    ensures |d.direct| == DIRECT
  {
    InodeDisk(ws[..DIRECT], ws[DIRECT], ws[DIRECT + 1], ws[DIRECT + 2] % 256 != 0, ws[DIRECT + 3], ws[127])
  }

  function DecodeInode(b: Block): (d: InodeDisk)
    ensures |d.direct| == DIRECT
  {
    OfWords(Words(b))
  }

  lemma InodeOfWords(d: InodeDisk)
    requires |d.direct| == DIRECT
    ensures OfWords(InodeWords(d)) == d
  {
    assert InodeWords(d)[..DIRECT] == d.direct;
  }

  /** Where the fields of struct inode_disk lie in the sector, as words. */
  lemma InodeFields(d: InodeDisk, ws: seq<Word>)
    requires |d.direct| == DIRECT && ws == Words(EncodeInode(d))
    ensures ws[..123] == d.direct && ws[123] == d.indirect && ws[124] == d.doubly
    ensures ws[125] == (if d.isDir then 1 else 0) && ws[126] == d.length && ws[127] == d.magic
  {
    WordsRoundTrip(InodeWords(d));
    FieldWords(d, ws);
  }

  lemma FieldWords(d: InodeDisk, ws: seq<Word>)
    requires |d.direct| == DIRECT && ws == InodeWords(d)
    ensures ws[..123] == d.direct && ws[123] == d.indirect && ws[124] == d.doubly
    ensures ws[125] == (if d.isDir then 1 else 0) && ws[126] == d.length && ws[127] == d.magic
  {
  }

  /** An inode written to its sector is read back unchanged. */
  lemma InodeRoundTrip(d: InodeDisk)
    requires |d.direct| == DIRECT
    ensures DecodeInode(EncodeInode(d)) == d
  {
    WordsRoundTrip(InodeWords(d));
    InodeOfWords(d);
  }
}
