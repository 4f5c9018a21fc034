/** What reserving sectors does to the disk and to the owners of the sectors, one step at a time. */
module Reserving {
  import opened Blocks
  import opened Layout
  import opened Content

  /** A data sector of the free map file. */
  ghost predicate MapData(tag: Tag) {
    tag.Own? && tag.id == 0 && tag.pos >= 0 && !IsIndex(tag.pos)
  }

  /** While file ID grows from N0 sectors, only its new sectors, its index blocks at positions
      [lo, hi) and the contents of the free map file change. */
  ghost predicate Frame(disk0: seq<Block>, disk1: seq<Block>, tags: seq<Tag>, id: nat, n0: nat, lo: nat, hi: nat) {
    && |disk1| == |disk0|
    && forall t :: 0 <= t < |disk0| && disk1[t] != disk0[t] ==>
         && t < |tags| && tags[t].Own?
         && ((id != 0 && MapData(tags[t]))
             || (tags[t].id == id && (tags[t].pos >= n0 || (lo <= tags[t].pos < hi && IsIndex(tags[t].pos)))))
  }

  /** The new data sectors are zeroed. */
  ghost predicate NewZero(disk: seq<Block>, secs0: seq<nat>, secs1: seq<nat>) {
    forall q :: |secs0| <= q < |secs1| && !IsIndex(q) ==> secs1[q] < |disk| && disk[secs1[q]] == Zeros()
  }

  // Some predicates below are large. To keep them folded in the proofs that only pass them on,
  // their bodies are guarded by a marker, which a proof mentions to open them, and a caller's
  // check of the predicate is one comparison with true.

  predicate Open(b: bool) { b }

  /** File ID grew from SECS0 to SECS1 by taking the first free sectors; the new data sectors are
      zeroed and nothing else changed but index blocks at positions [lo, hi) and the free map file. */
  ghost predicate Reserved(disk0: seq<Block>, disk1: seq<Block>, tags0: seq<Tag>, tags1: seq<Tag>, id: nat,
                           secs0: seq<nat>, secs1: seq<nat>, lo: nat, hi: nat) {
    ReservedBody(disk0, disk1, tags0, tags1, id, secs0, secs1, lo, hi) == true
  }

  ghost predicate ReservedBody(disk0: seq<Block>, disk1: seq<Block>, tags0: seq<Tag>, tags1: seq<Tag>, id: nat,
                               secs0: seq<nat>, secs1: seq<nat>, lo: nat, hi: nat) {
    forall b {:trigger Open(b)} :: Open(b) ==>
      && Grew(tags0, tags1, id, secs0, secs1)
      && Frame(disk0, disk1, tags1, id, |secs0|, lo, hi)
      && NewZero(disk1, secs0, secs1)
  }

  lemma ReservedFacts(disk0: seq<Block>, disk1: seq<Block>, tags0: seq<Tag>, tags1: seq<Tag>, id: nat,
                      secs0: seq<nat>, secs1: seq<nat>, lo: nat, hi: nat)
    requires Reserved(disk0, disk1, tags0, tags1, id, secs0, secs1, lo, hi)
    ensures secs0 <= secs1 && Claims(tags1, id, secs1) && |disk0| == |disk1| && |tags0| == |tags1|
    ensures |FreeList(tags1)| + |secs1| == |FreeList(tags0)| + |secs0|
    ensures FreeList(tags0) == [] ==> secs1 == secs0 && FreeList(tags1) == []
  {
    assert Open(true);
  }

  /** Only sector 0, what file ID got beyond its N0 sectors, its index blocks and the contents of the
      free map file changed. */
  ghost predicate LooseFrame(disk0: seq<Block>, disk1: seq<Block>, tags: seq<Tag>, id: nat, n0: nat) {
    && |disk1| == |disk0|
    && forall t :: 0 < t < |disk0| && disk1[t] != disk0[t] ==>
         && t < |tags| && tags[t].Own?
         && (MapData(tags[t]) || (tags[t].id == id && (tags[t].pos >= n0 || IsIndex(tags[t].pos))))
  }

  /** File ID got every free sector and needed one more. When that was to be an index block, sector
      0 was zeroed in its place. */
  ghost predicate RanOut(disk0: seq<Block>, disk1: seq<Block>, tags0: seq<Tag>, tags1: seq<Tag>, id: nat,
                         secs0: seq<nat>, secs1: seq<nat>) {
    RanOutBody(disk0, disk1, tags0, tags1, id, secs0, secs1) == true
  }

  ghost predicate RanOutBody(disk0: seq<Block>, disk1: seq<Block>, tags0: seq<Tag>, tags1: seq<Tag>, id: nat,
                             secs0: seq<nat>, secs1: seq<nat>) {
    forall b {:trigger Open(b)} :: Open(b) ==>
      && Grew(tags0, tags1, id, secs0, secs1) && FreeList(tags1) == []
      && LooseFrame(disk0, disk1, tags1, id, |secs0|)
      && 0 < |tags1| && tags1[0] == Own(0, -1)
      && Sector0(disk1) == if IsIndex(|secs0| + |FreeList(tags0)|) then Zeros() else Sector0(disk0)
  }

  /** File ID has at least p sectors, or it ran out of sectors at an index block before position p. */
  ghost predicate Placeable(disk: seq<Block>, tags: seq<Tag>, secs: seq<nat>, p: nat) {
    p <= |secs| || (FreeList(tags) == [] && IsIndex(|secs|) && Sector0(disk) == Zeros())
  }

  /** A refused allocation for position p, after which at most sector 0 was written. */
  lemma RefusedOne(disk: seq<Block>, tags: seq<Tag>, id: nat, secs: seq<nat>, p: nat)
    requires Claims(tags, id, secs) && FreeList(tags) == [] && 0 < |tags| < |disk| && tags[0] == Own(0, -1)
    requires p >= |secs| && Placeable(disk, tags, secs, p)
    ensures RanOut(disk, if IsIndex(p) then disk[0 := Zeros()] else disk, tags, tags, id, secs, secs)
  {
    assert Open(true);
    GrewNot(tags, id, secs);
  }

  /** A reservation and then one that ran out. */
  lemma RanOutAfter(disk0: seq<Block>, disk1: seq<Block>, disk2: seq<Block>, tags0: seq<Tag>, tags1: seq<Tag>, tags2: seq<Tag>,
                    id: nat, secs0: seq<nat>, secs1: seq<nat>, secs2: seq<nat>, lo: nat, hi: nat)
    requires Reserved(disk0, disk1, tags0, tags1, id, secs0, secs1, lo, hi)
    requires RanOut(disk1, disk2, tags1, tags2, id, secs1, secs2)
    ensures RanOut(disk0, disk2, tags0, tags2, id, secs0, secs2)
  {
    assert Open(true);
    GrewMore(tags0, tags1, tags2, id, secs0, secs1, secs2);
    forall t | 0 < t < |disk0| && disk2[t] != disk0[t]
      ensures t < |tags2| && tags2[t].Own?
      ensures MapData(tags2[t]) || (tags2[t].id == id && (tags2[t].pos >= |secs0| || IsIndex(tags2[t].pos)))
    {
      if disk2[t] == disk1[t] {
        assert disk1[t] != disk0[t];
      }
    }
    assert tags1[0] == tags2[0];
    assert Sector0(disk1) == Sector0(disk0);
  }

  lemma RanOutTwice(disk0: seq<Block>, disk1: seq<Block>, disk2: seq<Block>, tags0: seq<Tag>, tags1: seq<Tag>, tags2: seq<Tag>,
                    id: nat, secs0: seq<nat>, secs1: seq<nat>, secs2: seq<nat>)
    requires RanOut(disk0, disk1, tags0, tags1, id, secs0, secs1) && RanOut(disk1, disk2, tags1, tags2, id, secs1, secs2)
    ensures RanOut(disk0, disk2, tags0, tags2, id, secs0, secs2)
  {
    assert Open(true);
    GrewMore(tags0, tags1, tags2, id, secs0, secs1, secs2);
    forall t | 0 < t < |disk0| && disk2[t] != disk0[t]
      ensures t < |tags2| && tags2[t].Own?
      ensures MapData(tags2[t]) || (tags2[t].id == id && (tags2[t].pos >= |secs0| || IsIndex(tags2[t].pos)))
    {
      if disk2[t] == disk1[t] {
        assert disk1[t] != disk0[t];
      }
    }
    GrewPrefix(tags1, tags2, id, secs1, secs2);
  }

  /** What comes before one that ran out does not matter. */
  lemma RanOutInTheEnd(disk0: seq<Block>, disk1: seq<Block>, disk2: seq<Block>, tags0: seq<Tag>, tags1: seq<Tag>, tags2: seq<Tag>,
                       id: nat, secs0: seq<nat>, secs1: seq<nat>, secs2: seq<nat>, lo: nat, hi: nat)
    requires || Reserved(disk0, disk1, tags0, tags1, id, secs0, secs1, lo, hi)
             || RanOut(disk0, disk1, tags0, tags1, id, secs0, secs1)
    requires RanOut(disk1, disk2, tags1, tags2, id, secs1, secs2)
    ensures RanOut(disk0, disk2, tags0, tags2, id, secs0, secs2)
  {
    if Reserved(disk0, disk1, tags0, tags1, id, secs0, secs1, lo, hi) {
      RanOutAfter(disk0, disk1, disk2, tags0, tags1, tags2, id, secs0, secs1, secs2, lo, hi);
    } else {
      RanOutTwice(disk0, disk1, disk2, tags0, tags1, tags2, id, secs0, secs1, secs2);
    }
  }

  /** Having run out, or having reached p, one can go on from there. */
  lemma PlaceableLater(disk0: seq<Block>, disk1: seq<Block>, tags0: seq<Tag>, tags1: seq<Tag>, id: nat,
                       secs0: seq<nat>, secs1: seq<nat>, lo: nat, hi: nat, p: nat, p1: nat)
    requires Reserved(disk0, disk1, tags0, tags1, id, secs0, secs1, lo, hi) && Placeable(disk0, tags0, secs0, p)
    requires 0 < |tags1| && tags1[0] == Own(0, -1) && (p1 <= |secs1| || p > |secs0|)
    ensures Placeable(disk1, tags1, secs1, p1)
  {
    assert Open(true);
    if p > |secs0| {
      ReservedFacts(disk0, disk1, tags0, tags1, id, secs0, secs1, lo, hi);
    }
  }

  /** A file that has N0 sectors and FREE others to grow into, and that is to hold as many of NUM data
      sectors as a file can hold, runs out just where an index block is due. */
  ghost predicate Overruns(n0: nat, free: nat, num: nat) {
    n0 + free < Cost(Min(num, MAX_SECTORS)) && IsIndex(n0 + free)
  }

  /** inode_reserve for NUM data sectors failed: file ID got the first free sectors, all that it needed
      or all that there were; sector 0 was zeroed exactly when it ran out at an index block. */
  ghost predicate Refused(disk0: seq<Block>, disk1: seq<Block>, tags0: seq<Tag>, tags1: seq<Tag>, id: nat,
                          secs0: seq<nat>, secs1: seq<nat>, num: nat) {
    RefusedBody(disk0, disk1, tags0, tags1, id, secs0, secs1, num) == true
  }

  ghost predicate RefusedBody(disk0: seq<Block>, disk1: seq<Block>, tags0: seq<Tag>, tags1: seq<Tag>, id: nat,
                              secs0: seq<nat>, secs1: seq<nat>, num: nat) {
    forall b {:trigger Open(b)} :: Open(b) ==>
      && Grew(tags0, tags1, id, secs0, secs1)
      && |secs1| == |secs0| + Min(|FreeList(tags0)|, Short(|secs0|, Cost(Min(num, MAX_SECTORS))))
      && LooseFrame(disk0, disk1, tags1, id, |secs0|)
      && Sector0(disk1) == if Overruns(|secs0|, |FreeList(tags0)|, num) then Zeros() else Sector0(disk0)
  }

  /** It ran out before it had all B sectors of a part of the file. */
  lemma ToRefused(disk0: seq<Block>, disk1: seq<Block>, tags0: seq<Tag>, tags1: seq<Tag>, id: nat,
                  secs0: seq<nat>, secs1: seq<nat>, b: nat, num: nat)
    requires RanOut(disk0, disk1, tags0, tags1, id, secs0, secs1)
    requires Short(|secs0|, b) > |FreeList(tags0)| && b <= Cost(Min(num, MAX_SECTORS))
    ensures Refused(disk0, disk1, tags0, tags1, id, secs0, secs1, num)
  {
    assert Open(true);
    GrewPrefix(tags0, tags1, id, secs0, secs1);
  }

  /** It had enough sectors, but the file would be too long. */
  lemma TooLong(disk0: seq<Block>, disk1: seq<Block>, tags0: seq<Tag>, tags1: seq<Tag>, id: nat,
                secs0: seq<nat>, secs1: seq<nat>, num: nat)
    requires Reserved(disk0, disk1, tags0, tags1, id, secs0, secs1, 0, END) && num > MAX_SECTORS
    requires |secs1| == Max(|secs0|, Cost(MAX_SECTORS)) && 0 < |tags1| && tags1[0] == Own(0, -1)
    ensures Refused(disk0, disk1, tags0, tags1, id, secs0, secs1, num)
  {
    assert Open(true);
    ReservedFacts(disk0, disk1, tags0, tags1, id, secs0, secs1, 0, END);
  }

  /** A reservation that asks for nothing and is refused. */
  lemma RefusedNothing(disk: seq<Block>, tags: seq<Tag>, id: nat, secs: seq<nat>)
    requires Claims(tags, id, secs)
    ensures Refused(disk, disk, tags, tags, id, secs, secs, 0)
  {
    GrewNot(tags, id, secs);
  }

  lemma RefusedFacts(disk0: seq<Block>, disk1: seq<Block>, tags0: seq<Tag>, tags1: seq<Tag>, id: nat,
                     secs0: seq<nat>, secs1: seq<nat>, num: nat)
    requires Refused(disk0, disk1, tags0, tags1, id, secs0, secs1, num)
    ensures Grew(tags0, tags1, id, secs0, secs1) && LooseFrame(disk0, disk1, tags1, id, |secs0|)
    ensures |secs1| == |secs0| + Min(|FreeList(tags0)|, Short(|secs0|, Cost(Min(num, MAX_SECTORS))))
    ensures |FreeList(tags1)| == |FreeList(tags0)| - Min(|FreeList(tags0)|, Short(|secs0|, Cost(Min(num, MAX_SECTORS))))
    ensures Sector0(disk1) == if Overruns(|secs0|, |FreeList(tags0)|, num) then Zeros() else Sector0(disk0)
  {
    assert Open(true);
  }

  lemma FrameMore(disk0: seq<Block>, disk1: seq<Block>, disk2: seq<Block>, tags1: seq<Tag>, tags2: seq<Tag>, id: nat,
                  n0: nat, n1: nat, lo: nat, hi: nat, lo1: nat, hi1: nat)
    requires Frame(disk0, disk1, tags1, id, n0, lo, hi) && Frame(disk1, disk2, tags2, id, n1, lo1, hi1)
    requires n0 <= n1 && lo <= lo1 && hi1 <= hi && |tags1| == |tags2|
    requires forall t :: 0 <= t < |tags1| && tags1[t] != Free ==> tags2[t] == tags1[t]
    ensures Frame(disk0, disk2, tags2, id, n0, lo, hi)
  {
    forall t | 0 <= t < |disk0| && disk2[t] != disk0[t]
      ensures t < |tags2| && tags2[t].Own?
      ensures (id != 0 && MapData(tags2[t]))
              || (tags2[t].id == id && (tags2[t].pos >= n0 || (lo <= tags2[t].pos < hi && IsIndex(tags2[t].pos))))
    {
      if disk2[t] == disk1[t] {
        assert disk1[t] != disk0[t];
      }
    }
  }

  lemma NewZeroMore(disk1: seq<Block>, disk2: seq<Block>, tags2: seq<Tag>, id: nat, secs0: seq<nat>, secs1: seq<nat>,
                    secs2: seq<nat>, lo1: nat, hi1: nat)
    requires NewZero(disk1, secs0, secs1) && NewZero(disk2, secs1, secs2) && secs1 <= secs2
    requires Claims(tags2, id, secs2) && Frame(disk1, disk2, tags2, id, |secs1|, lo1, hi1)
    ensures NewZero(disk2, secs0, secs2)
  {
    forall q | |secs0| <= q < |secs2| && !IsIndex(q)
      ensures secs2[q] < |disk2| && disk2[secs2[q]] == Zeros()
    {
      if q < |secs1| {
        assert secs1[q] == secs2[q] && tags2[secs2[q]] == Own(id, q);
      }
    }
  }

  /** Two steps of growth make one. */
  lemma ReservedMore(disk0: seq<Block>, disk1: seq<Block>, disk2: seq<Block>, tags0: seq<Tag>, tags1: seq<Tag>,
                     tags2: seq<Tag>, id: nat, secs0: seq<nat>, secs1: seq<nat>, secs2: seq<nat>,
                     lo: nat, hi: nat, lo1: nat, hi1: nat)
    requires Reserved(disk0, disk1, tags0, tags1, id, secs0, secs1, lo, hi)
    requires Reserved(disk1, disk2, tags1, tags2, id, secs1, secs2, lo1, hi1)
    requires lo <= lo1 && hi1 <= hi
    ensures Reserved(disk0, disk2, tags0, tags2, id, secs0, secs2, lo, hi)
  {
    assert Open(true);
    GrewMore(tags0, tags1, tags2, id, secs0, secs1, secs2);
    FrameMore(disk0, disk1, disk2, tags1, tags2, id, |secs0|, |secs1|, lo, hi, lo1, hi1);
    NewZeroMore(disk1, disk2, tags2, id, secs0, secs1, secs2, lo1, hi1);
  }

  lemma ReservedNothing(disk: seq<Block>, tags: seq<Tag>, id: nat, secs: seq<nat>, lo: nat, hi: nat)
    requires Claims(tags, id, secs)
    ensures Reserved(disk, disk, tags, tags, id, secs, secs, lo, hi)
  {
    assert Open(true);
    GrewNot(tags, id, secs);
  }

  /** One sector taken for position |secs|, the free map file updated, the sector zeroed. */
  lemma ReservedOne(disk0: seq<Block>, disk1: seq<Block>, tags0: seq<Tag>, id: nat, secs: seq<nat>, lo: nat, hi: nat)
    requires Claims(tags0, id, secs) && FreeList(tags0) != [] && FreeList(tags0)[0] > 0 && |tags0| <= |disk0|
    requires var s := FreeList(tags0)[0];
             s < |tags0| && DataOnly(disk0, disk1, tags0[s := Own(id, |secs|)], 0) && (id == 0 ==> disk1 == disk0)
    ensures var s := FreeList(tags0)[0];
            Reserved(disk0, disk1[s := Zeros()], tags0, tags0[s := Own(id, |secs|)], id, secs, secs + [s], lo, hi)
  {
    assert Open(true);
    GrewOne(tags0, id, secs);
  }

  /** Only data sectors of file ID differ. */
  ghost predicate DataOnly(disk0: seq<Block>, disk1: seq<Block>, tags: seq<Tag>, id: nat) {
    && |disk1| == |disk0|
    && forall t :: 0 <= t < |disk0| && disk1[t] != disk0[t] ==>
         t < |tags| && tags[t].Own? && tags[t].id == id && tags[t].pos >= 0 && !IsIndex(tags[t].pos)
  }

  // ----- The children of an index block -----

  function Min(a: nat, b: nat): nat { if a < b then a else b }

  function Max(a: nat, b: nat): nat { if a < b then b else a }

  /** Data sectors under the first i children. */
  function Upto(level: nat, i: nat): nat { if level <= 1 then i else PER_BLOCK * i }

  /** The entries WS, not yet written, and the subtrees below them describe SECS. */
  ghost predicate Kids(disk: seq<Block>, secs: seq<nat>, level: nat, p: nat, ws: seq<Word>) {
    KidsBody(disk, secs, level, p, ws) == true
  }

  ghost predicate KidsBody(disk: seq<Block>, secs: seq<nat>, level: nat, p: nat, ws: seq<Word>) {
    forall b {:trigger Open(b)} :: Open(b) ==>
      && |ws| == PER_BLOCK && level > 0
      && (forall j :: 0 <= j < PER_BLOCK ==> ws[j] == At(secs, Child(level, p, j)))
      && (forall j :: 0 <= j < PER_BLOCK ==> Tree(disk, secs, level - 1, Child(level, p, j)))
  }

  /** The position of an index block of this level. */
  ghost predicate IndexHome(level: nat, p: nat) {
    (level == 1 && p != DOUBLY_POS && IsIndex(p)) || (level == 2 && p == DOUBLY_POS)
  }

  lemma ChildHome(level: nat, p: nat, j: nat)
    requires IndexHome(level, p)
    ensures level == 2 ==> IndexHome(1, Child(level, p, j))
    ensures level == 1 ==> j < PER_BLOCK ==> !IsIndex(Child(level, p, j))
    ensures IsIndex(p)
  {
    ChildIsIndex(j);
    IndexIs(p);
    IndexIs(Child(level, p, j));
    if level == 1 && j < PER_BLOCK && p >= FIRST_GROUP {
      assert (p + 1 + j - FIRST_GROUP) % GROUP == j + 1;
    }
  }

  lemma KidsLength(disk: seq<Block>, secs: seq<nat>, level: nat, p: nat, ws: seq<Word>)
    requires Kids(disk, secs, level, p, ws)
    ensures |ws| == PER_BLOCK
  {
    assert Open(true);
  }

  /** Reserving below child i keeps the other children. */
  lemma KidStep(disk0: seq<Block>, disk1: seq<Block>, tags1: seq<Tag>, id: nat, secs0: seq<nat>, secs1: seq<nat>,
                level: nat, p: nat, ws: seq<Word>, i: nat, w: Word)
    requires IndexHome(level, p) && i < PER_BLOCK == |ws| && Kids(disk0, secs0, level, p, ws)
    requires secs0 <= secs1 && Claims(tags1, id, secs1)
    requires var c := Child(level, p, i);
             && Frame(disk0, disk1, tags1, id, |secs0|, c, c + Span(level - 1))
             && (|secs0| == |secs1| || (c <= |secs0| && |secs1| <= c + Span(level - 1)))
             && w == At(secs1, c) && Tree(disk1, secs1, level - 1, c)
    ensures Kids(disk1, secs1, level, p, ws[i := w])
  {
    assert Open(true);
    var c := Child(level, p, i);
    var ws1 := ws[i := w];
    forall j | 0 <= j < PER_BLOCK
      ensures ws1[j] == At(secs1, Child(level, p, j))
    {
      if j != i && |secs0| < |secs1| {
        assert j < i ==> Child(level, p, j) < |secs0|;
        assert j > i ==> Child(level, p, j) >= |secs1|;
      }
    }
    forall j | 0 <= j < PER_BLOCK
      ensures Tree(disk1, secs1, level - 1, Child(level, p, j))
    {
      if j != i && level == 2 {
        assert Tree(disk0, secs0, 1, Child(level, p, j));
        SiblingTree(disk0, disk1, tags1, id, secs0, secs1, c, Child(level, p, j));
      }
    }
  }

  lemma {:induction false} SiblingTree(disk0: seq<Block>, disk1: seq<Block>, tags1: seq<Tag>, id: nat, secs0: seq<nat>, secs1: seq<nat>, c: nat, d: nat)
    requires secs0 <= secs1 && Claims(tags1, id, secs1) && Tree(disk0, secs0, 1, d)
    requires Frame(disk0, disk1, tags1, id, |secs0|, c, c + GROUP) && IsIndex(d) && (d + GROUP <= c || c + GROUP <= d)
    requires |secs0| == |secs1| || (c <= |secs0| && |secs1| <= c + GROUP)
    ensures Tree(disk1, secs1, 1, d)
  {
    if d < |secs1| {
      assert d < |secs0| && secs0[d] == secs1[d];
      assert tags1[secs1[d]] == Own(id, d);
      assert disk1[secs1[d]] == disk0[secs0[d]];
      assert forall j :: 0 <= j < PER_BLOCK ==> At(secs1, Child(1, d, j)) == At(secs0, Child(1, d, j));
    }
  }

  lemma {:induction false} LeavesToTree(disk: seq<Block>, secs: seq<nat>, p: nat, ws: seq<Word>)
    requires IndexHome(1, p) && |ws| == PER_BLOCK && Kids(disk, secs, 1, p, ws) && p < |secs| && secs[p] < |disk|
    ensures Tree(disk[secs[p] := FromWords(ws)], secs, 1, p)
  {
    assert Open(true);
    WordsRoundTrip(ws);
  }

  lemma {:induction false} IndexToTree(disk: seq<Block>, tags: seq<Tag>, id: nat, secs: seq<nat>, p: nat, ws: seq<Word>)
    requires IndexHome(2, p) && |ws| == PER_BLOCK && Kids(disk, secs, 2, p, ws) && Claims(tags, id, secs)
    requires p < |secs| && |tags| <= |disk|
    ensures Tree(disk[secs[p] := FromWords(ws)], secs, 2, p)
  {
    assert Open(true);
    WordsRoundTrip(ws);
    var disk1 := disk[secs[p] := FromWords(ws)];
    forall j | 0 <= j < PER_BLOCK
      ensures Tree(disk1, secs, 1, Child(2, p, j))
    {
      assert Tree(disk, secs, 1, Child(2, p, j));
      OtherBlock(disk, tags, id, secs, p, Child(2, p, j), FromWords(ws));
    }
  }

  /** The finished entries written to their index block complete the subtree. */
  lemma {:induction false} KidsToTree(disk: seq<Block>, tags: seq<Tag>, id: nat, secs: seq<nat>, level: nat, p: nat, ws: seq<Word>)
    requires IndexHome(level, p) && |ws| == PER_BLOCK && Kids(disk, secs, level, p, ws) && Claims(tags, id, secs)
    requires p < |secs| && |tags| <= |disk|
    ensures Tree(disk[secs[p] := FromWords(ws)], secs, level, p)
  {
    if level == 1 {
      LeavesToTree(disk, secs, p, ws);
    } else {
      IndexToTree(disk, tags, id, secs, p, ws);
    }
  }

  lemma OtherBlock(disk: seq<Block>, tags: seq<Tag>, id: nat, secs: seq<nat>, p: nat, c: nat, b: Block)
    requires Claims(tags, id, secs) && p < |secs| && |tags| <= |disk| && c != p && Tree(disk, secs, 1, c)
    ensures Tree(disk[secs[p] := b], secs, 1, c)
  {
    if c < |secs| {
      assert tags[secs[c]] != tags[secs[p]];
    }
  }

  /** A zeroed index block at the end of the file has no children yet. */
  lemma KidsOfNew(disk: seq<Block>, secs: seq<nat>, level: nat, p: nat, ws: seq<Word>)
    requires IndexHome(level, p) && |secs| <= p + 1 && ws == Words(Zeros())
    ensures Kids(disk, secs, level, p, ws)
  {
    assert Open(true);
    ZeroWords();
  }

  /** Writing the index block at position p stays within the frame. */
  lemma {:induction false} IndexWritten(disk0: seq<Block>, disk1: seq<Block>, tags0: seq<Tag>, tags1: seq<Tag>, id: nat,
                     secs0: seq<nat>, secs1: seq<nat>, level: nat, p: nat, ws: seq<Word>)
    requires Reserved(disk0, disk1, tags0, tags1, id, secs0, secs1, p, p + Span(level))
    requires IndexHome(level, p) && |ws| == PER_BLOCK && Kids(disk1, secs1, level, p, ws)
    requires Claims(tags1, id, secs1) && p < |secs1| && |tags1| <= |disk1|
    ensures var disk2 := disk1[secs1[p] := FromWords(ws)];
            Reserved(disk0, disk2, tags0, tags1, id, secs0, secs1, p, p + Span(level)) && Tree(disk2, secs1, level, p)
  {
    assert Open(true);
    KidsToTree(disk1, tags1, id, secs1, level, p, ws);
    var disk2 := disk1[secs1[p] := FromWords(ws)];
    assert tags1[secs1[p]] == Own(id, p) && IsIndex(p);
    forall q | |secs0| <= q < |secs1| && !IsIndex(q)
      ensures disk2[secs1[q]] == Zeros()
    {
      assert tags1[secs1[q]] == Own(id, q);
    }
  }

  // ----- How far a subtree reaches -----

  /** How many sectors short of END a file of N sectors is. */
  function Short(n: nat, end: nat): nat { if end > n then end - n else 0 }

  function Missing(secs: seq<nat>, end: nat): nat { Short(|secs|, end) }

  lemma ChildReach(level: nat, p: nat, i: nat, sub: nat)
    requires 1 <= level <= 2 && 0 < sub <= Unit(level)
    ensures Child(level, p, i) == p + 1 + KidsCost(level, Upto(level, i))
    ensures Child(level, p, i) + LevelCost(level - 1, sub) == p + 1 + KidsCost(level, Upto(level, i) + sub)
    ensures LevelCost(level - 1, sub) <= Span(level - 1) && sub <= Capacity(level - 1)
    ensures Child(level, p, i) + LevelCost(level - 1, sub) <= Child(level, p, i + 1)
  {
  }

  /** DIV_ROUND_UP(num, unit): the entries that num data sectors need. */
  function Entries(level: nat, num: nat): nat { if level <= 1 then num else (num + (PER_BLOCK - 1)) / PER_BLOCK }

  /** The number of iterations, and the part of the last one. */
  lemma Iterations(level: nat, num: nat, i: nat)
    requires 1 <= level <= 2 && 0 < num <= Capacity(level)
    ensures var l := Entries(level, num);
            && 0 < l <= PER_BLOCK
            && (i < l <==> Upto(level, i) < num)
            && (i < l ==> Min(num, Upto(level, i + 1)) == Upto(level, i) + Min(num - Upto(level, i), Unit(level)))
            && (i == l ==> Min(num, Upto(level, i)) == num)
  {
  }

  lemma CostMonotone(level: nat, m: nat, n: nat)
    requires m <= n
    ensures KidsCost(level, m) <= KidsCost(level, n)
  {
  }

  predicate OpenCount(b: bool) { b }

  /** The loop of inode_reserve_indirect before iteration i: LEFT data sectors remain to be
      reserved, and a file that had N0 sectors and F0 free ones to grow into has N1. When the index
      block itself could not be allocated, nothing is free. */
  ghost predicate Progress(n0: nat, f0: nat, n1: nat, level: nat, p: nat, num: nat, i: nat, left: nat) {
    ProgressBody(n0, f0, n1, level, p, num, i, left) == true
  }

  ghost predicate ProgressBody(n0: nat, f0: nat, n1: nat, level: nat, p: nat, num: nat, i: nat, left: nat) {
    && n0 <= n1 <= n0 + f0
    && forall b {:trigger OpenCount(b)} :: OpenCount(b) ==>
         && left + Min(num, Upto(level, i)) == num
         && (if p < n0 then n1 == Max(n0, p + 1 + KidsCost(level, num - left)) else n1 == n0 && f0 == 0 && i == 0)
  }

  lemma ProgressStart(n0: nat, f0: nat, level: nat, p: nat, num: nat)
    requires 1 <= level <= 2 && (p < n0 || f0 == 0)
    ensures Progress(n0, f0, n0, level, p, num, 0, num)
  {
  }

  lemma ProgressCall(n0: nat, f0: nat, n1: nat, level: nat, p: nat, num: nat, i: nat, left: nat)
    requires 1 <= level <= 2 && 0 < num <= Capacity(level) && i < Entries(level, num)
    requires Progress(n0, f0, n1, level, p, num, i, left)
    ensures var sub := Min(left, Unit(level));
            && i < PER_BLOCK && 0 < sub <= left && sub <= Unit(level) && (Child(level, p, i) <= n1 || p + 1 > n0)
            && p <= Child(level, p, i) && Child(level, p, i) + Span(level - 1) <= p + Span(level)
            && (Short(n1, Child(level, p, i) + LevelCost(level - 1, sub)) > n0 + f0 - n1 ==>
                  Short(n0, p + 1 + KidsCost(level, num)) > f0)
  {
    assert OpenCount(true);
    Iterations(level, num, i);
    ChildReach(level, p, i, Min(left, Unit(level)));
    CostMonotone(level, Upto(level, i) + Min(left, Unit(level)), num);
  }

  lemma ProgressNext(n0: nat, f0: nat, n1: nat, n2: nat, level: nat, p: nat, num: nat, i: nat, left: nat)
    requires 1 <= level <= 2 && 0 < num <= Capacity(level) && i < Entries(level, num)
    requires Progress(n0, f0, n1, level, p, num, i, left) && n2 <= n0 + f0
    requires n2 == Max(n1, Child(level, p, i) + LevelCost(level - 1, Min(left, Unit(level))))
    ensures Min(left, Unit(level)) <= left
    ensures Progress(n0, f0, n2, level, p, num, i + 1, left - Min(left, Unit(level)))
  {
    assert OpenCount(true);
    Iterations(level, num, i);
    ChildReach(level, p, i, Min(left, Unit(level)));
  }

  lemma ProgressEnd(n0: nat, f0: nat, n1: nat, level: nat, p: nat, num: nat, left: nat)
    requires 1 <= level <= 2 && 0 < num <= Capacity(level)
    requires Progress(n0, f0, n1, level, p, num, Entries(level, num), left)
    ensures n1 == Max(n0, p + 1 + KidsCost(level, num)) && Short(n0, p + 1 + KidsCost(level, num)) <= f0
  {
    assert OpenCount(true);
    Iterations(level, num, Entries(level, num));
  }

  // ----- The three zones of a file -----

  /** What a file of SECS looks like to inode_reserve: its entries, and trees on the disk. */
  ghost predicate Zones(disk: seq<Block>, d: InodeDisk, secs: seq<nat>) {
    ZonesBody(disk, d, secs) == true
  }

  ghost predicate ZonesBody(disk: seq<Block>, d: InodeDisk, secs: seq<nat>) {
    forall b {:trigger Open(b)} :: Open(b) ==> Rep(disk, d, secs)
  }

  lemma ToZones(disk: seq<Block>, d: InodeDisk, secs: seq<nat>)
    requires Rep(disk, d, secs)
    ensures Zones(disk, d, secs)
  {
  }

  lemma {:induction false} ZonesEntries(disk: seq<Block>, d: InodeDisk, secs: seq<nat>)
    requires Zones(disk, d, secs)
    ensures |d.direct| == DIRECT && d.indirect == At(secs, DIRECT) && d.doubly == At(secs, DOUBLY_POS)
    ensures forall i :: 0 <= i < DIRECT ==> d.direct[i] == At(secs, i)
    ensures Tree(disk, secs, 1, DIRECT) && Tree(disk, secs, 2, DOUBLY_POS)
  {
    assert Open(true);
  }

  /** Growth within the direct zone. */
  lemma DirectZone(disk0: seq<Block>, disk1: seq<Block>, tags0: seq<Tag>, tags1: seq<Tag>, id: nat, d: InodeDisk,
                   secs0: seq<nat>, secs1: seq<nat>, i: nat, w: Word)
    requires Zones(disk0, d, secs0) && Reserved(disk0, disk1, tags0, tags1, id, secs0, secs1, i, i)
    requires i < DIRECT == |d.direct| && i <= |secs0| && |secs1| == Max(|secs0|, i + 1) && w == secs1[i] && |tags1| <= |disk0|
    ensures Zones(disk1, d.(direct := d.direct[i := w]), secs1)
  {
    assert Open(true);
    if |secs1| > |secs0| {
      forall j | 0 <= j < DIRECT && j != i
        ensures At(secs1, j) == At(secs0, j)
      {
      }
    } else {
      assert secs1 == secs0;
      SameTrees(disk0, disk1, tags1, id, secs0, i, i);
    }
  }

  lemma {:induction false} SameTrees(disk0: seq<Block>, disk1: seq<Block>, tags1: seq<Tag>, id: nat, secs: seq<nat>, lo: nat, hi: nat)
    requires Claims(tags1, id, secs) && |tags1| <= |disk0| && Frame(disk0, disk1, tags1, id, |secs|, lo, hi) && hi <= lo
    ensures Tree(disk0, secs, 1, DIRECT) ==> Tree(disk1, secs, 1, DIRECT)
    ensures Tree(disk0, secs, 2, DOUBLY_POS) ==> Tree(disk1, secs, 2, DOUBLY_POS)
  {
    forall q | 0 <= q < |secs| && IsIndex(q)
      ensures disk0[secs[q]] == disk1[secs[q]]
    {
      assert tags1[secs[q]] == Own(id, q);
    }
    TreeFrame(disk0, disk1, secs);
  }

  /** Growth of the subtree behind the indirect entry. */
  lemma {:induction false} IndirectZone(disk0: seq<Block>, disk1: seq<Block>, tags0: seq<Tag>, tags1: seq<Tag>, id: nat, d: InodeDisk,
                     secs0: seq<nat>, secs1: seq<nat>, w: Word)
    requires Zones(disk0, d, secs0) && Reserved(disk0, disk1, tags0, tags1, id, secs0, secs1, DIRECT, DOUBLY_POS)
    requires DIRECT <= |secs0| && |secs1| <= Max(|secs0|, DOUBLY_POS) && w == At(secs1, DIRECT) && Tree(disk1, secs1, 1, DIRECT)
    ensures Zones(disk1, d.(indirect := w), secs1)
  {
    assert Open(true);
    IndexIs(DOUBLY_POS);
    if |secs1| > DOUBLY_POS {
      assert secs1 == secs0;
      DoublyKept(disk0, disk1, tags1, id, secs0);
    }
  }

  lemma {:induction false} DoublyKept(disk0: seq<Block>, disk1: seq<Block>, tags1: seq<Tag>, id: nat, secs: seq<nat>)
    requires Claims(tags1, id, secs) && Frame(disk0, disk1, tags1, id, |secs|, DIRECT, DOUBLY_POS)
             && Tree(disk0, secs, 2, DOUBLY_POS)
    ensures Tree(disk1, secs, 2, DOUBLY_POS)
  {
    forall q | DOUBLY_POS <= q < |secs| && secs[q] < |disk0|
      ensures disk0[secs[q]] == disk1[secs[q]]
    {
      assert tags1[secs[q]] == Own(id, q);
    }
    forall j | 0 <= j < PER_BLOCK
      ensures Tree(disk1, secs, 1, Child(2, DOUBLY_POS, j))
    {
      assert DOUBLY_POS < |secs| ==> Tree(disk0, secs, 1, Child(2, DOUBLY_POS, j));
    }
  }

  /** Growth of the subtree behind the doubly indirect entry. */
  lemma {:induction false} DoublyZone(disk0: seq<Block>, disk1: seq<Block>, tags0: seq<Tag>, tags1: seq<Tag>, id: nat, d: InodeDisk,
                   secs0: seq<nat>, secs1: seq<nat>, w: Word)
    requires Zones(disk0, d, secs0) && Reserved(disk0, disk1, tags0, tags1, id, secs0, secs1, DOUBLY_POS, DOUBLY_POS + Span(2))
    requires DOUBLY_POS <= |secs0| && w == At(secs1, DOUBLY_POS) && Tree(disk1, secs1, 2, DOUBLY_POS)
    ensures Zones(disk1, d.(doubly := w), secs1)
  {
    assert Open(true);
    assert tags1[secs1[DIRECT]] == Own(id, DIRECT);
    assert disk1[secs1[DIRECT]] == disk0[secs0[DIRECT]];
    assert forall j :: 0 <= j < PER_BLOCK ==> At(secs1, Child(1, DIRECT, j)) == At(secs0, Child(1, DIRECT, j));
  }

  /** One past the last position of the largest file. */
  const END: nat := 16765

  /** Where a zone's index block stands. */
  function ZoneStart(level: nat): nat { if level <= 1 then DIRECT else DOUBLY_POS }

  lemma ZoneHome(level: nat)
    requires 1 <= level <= 2
    ensures IndexHome(level, ZoneStart(level))
  {
    IndexIs(DIRECT);
  }

  lemma ReservedWider(disk0: seq<Block>, disk1: seq<Block>, tags0: seq<Tag>, tags1: seq<Tag>, id: nat,
                      secs0: seq<nat>, secs1: seq<nat>, lo: nat, hi: nat, lo1: nat, hi1: nat)
    requires Reserved(disk0, disk1, tags0, tags1, id, secs0, secs1, lo, hi) && lo1 <= lo && hi <= hi1
    ensures Reserved(disk0, disk1, tags0, tags1, id, secs0, secs1, lo1, hi1)
  {
    assert Open(true);
  }

  lemma CostOfZones(n: nat)
    ensures n <= DIRECT ==> Cost(n) == n
    ensures DIRECT < n ==> DIRECT + LevelCost(1, Min(n - DIRECT, PER_BLOCK)) <= Cost(n)
    ensures DIRECT < n <= SINGLE_END ==> DIRECT + LevelCost(1, n - DIRECT) == Cost(n)
    ensures n > SINGLE_END ==> DOUBLY_POS + LevelCost(2, n - SINGLE_END) == Cost(n)
  {
  }

  /** What is left of NUM data sectors behind the direct ones: first the indirect block's, then the rest. */
  lemma IndirectZones(num: nat, n0: nat, f0: nat, ok1: bool, n1: nat, ok: bool, n2: nat)
    requires num > 0 && n0 >= DIRECT
    requires var a := DIRECT + LevelCost(1, Min(num, PER_BLOCK));
             (ok1 <==> Short(n0, a) <= f0) && (ok1 ==> n1 == Max(n0, a))
    requires if !ok1 || num <= PER_BLOCK then ok == ok1 && n2 == n1 else
               var rest, b := num - PER_BLOCK, DOUBLY_POS + LevelCost(2, num - PER_BLOCK);
               && (ok <==> rest <= PER_BLOCK * PER_BLOCK && Short(n1, b) <= n0 + f0 - n1)
               && (ok ==> n2 == Max(n1, b))
    ensures ok <==> num <= PER_BLOCK + PER_BLOCK * PER_BLOCK && Short(n0, Cost(DIRECT + num)) <= f0
    ensures ok ==> n2 == Max(n0, Cost(DIRECT + num))
  {
    CostOfZones(DIRECT + num);
  }

  lemma FirstZone(num: nat)
    requires num > 0
    ensures var a := DIRECT + LevelCost(1, Min(num, PER_BLOCK));
            a <= Cost(Min(DIRECT + num, MAX_SECTORS)) && (num > PER_BLOCK ==> a == DOUBLY_POS)
  {
    CostOfZones(Min(DIRECT + num, MAX_SECTORS));
  }

  /** The index block at position P, and then what is below it. */
  lemma BelowReserved(disk0: seq<Block>, disk1: seq<Block>, disk2: seq<Block>, tags0: seq<Tag>, tags1: seq<Tag>, tags2: seq<Tag>,
                      id: nat, secs0: seq<nat>, secs1: seq<nat>, secs2: seq<nat>, p: nat, hi: nat)
    requires Reserved(disk0, disk1, tags0, tags1, id, secs0, secs1, p, p) && p < hi && p < |secs1|
    requires Reserved(disk1, disk2, tags1, tags2, id, secs1, secs2, p, hi)
    ensures Reserved(disk0, disk2, tags0, tags2, id, secs0, secs2, p, hi)
    ensures |secs1| <= |secs2| && secs2[p] == secs1[p]
  {
    ReservedFacts(disk1, disk2, tags1, tags2, id, secs1, secs2, p, hi);
    ReservedWider(disk0, disk1, tags0, tags1, id, secs0, secs1, p, p, p, hi);
    ReservedMore(disk0, disk1, disk2, tags0, tags1, tags2, id, secs0, secs1, secs2, p, hi, p, hi);
  }

  /** One iteration after those since DISK0 that led to DISK1. */
  lemma KidReserved(disk0: seq<Block>, disk1: seq<Block>, disk2: seq<Block>, tags0: seq<Tag>, tags1: seq<Tag>, tags2: seq<Tag>,
                    id: nat, secs0: seq<nat>, secs1: seq<nat>, secs2: seq<nat>, level: nat, p: nat, num: nat, i: nat, left: nat)
    requires 1 <= level <= 2 && 0 < num <= Capacity(level) && i < Entries(level, num)
    requires Progress(|secs0|, |FreeList(tags0)|, |secs1|, level, p, num, i, left)
    requires Reserved(disk0, disk1, tags0, tags1, id, secs0, secs1, p, p + Span(level))
    requires var c := Child(level, p, i);
             && Reserved(disk1, disk2, tags1, tags2, id, secs1, secs2, c, c + Span(level - 1))
             && |secs2| == Max(|secs1|, c + LevelCost(level - 1, Min(left, Unit(level))))
    ensures Min(left, Unit(level)) <= left
    ensures Reserved(disk0, disk2, tags0, tags2, id, secs0, secs2, p, p + Span(level))
    ensures Progress(|secs0|, |FreeList(tags0)|, |secs2|, level, p, num, i + 1, left - Min(left, Unit(level)))
  {
    var n0, f0, c := |secs0|, |FreeList(tags0)|, Child(level, p, i);
    ReservedFacts(disk0, disk1, tags0, tags1, id, secs0, secs1, p, p + Span(level));
    ReservedFacts(disk1, disk2, tags1, tags2, id, secs1, secs2, c, c + Span(level - 1));
    ProgressCall(n0, f0, |secs1|, level, p, num, i, left);
    ProgressNext(n0, f0, |secs1|, |secs2|, level, p, num, i, left);
    ReservedMore(disk0, disk1, disk2, tags0, tags1, tags2, id, secs0, secs1, secs2, p, p + Span(level), c, c + Span(level - 1));
  }

  /** Running out on the way means that there were too few free sectors for the whole. */
  lemma ShortMore(n0: nat, f0: nat, n1: nat, f1: nat, a: nat, b: nat)
    requires n0 <= n1 && n0 + f0 == n1 + f1 && a <= b
    ensures Short(n1, a) > f1 ==> Short(n0, b) > f0
    ensures Short(n1, b) <= f1 ==> Short(n0, b) <= f0
    ensures Short(n0, b) <= f0 ==> Short(n1, a) <= f1
  {
  }

  // ----- Whole files -----

  /** The entries D describe the sectors SECS, which file ID owns and which are exactly those
      that its length needs; the allocated bytes past its end are zero. */
  ghost predicate IsFile(disk: seq<Block>, tags: seq<Tag>, id: nat, d: InodeDisk, secs: seq<nat>) {
    && Claims(tags, id, secs)
    && Rep(disk, d, secs)
    && Sectors(d.length) <= MAX_SECTORS
    && |secs| == Cost(Sectors(d.length))
    && ZeroFrom(disk, secs, d.length, Sectors(d.length))
  }

  /** Only sectors outside file ID differ. */
  ghost predicate Untouched(disk0: seq<Block>, disk1: seq<Block>, tags: seq<Tag>, id: nat) {
    && |disk1| == |disk0|
    && forall t :: 0 <= t < |disk0| && disk1[t] != disk0[t] ==> t >= |tags| || !(tags[t].Own? && tags[t].id == id && tags[t].pos >= 0)
  }

  lemma UntouchedBytes(disk0: seq<Block>, disk1: seq<Block>, tags: seq<Tag>, id: nat, secs: seq<nat>)
    requires Claims(tags, id, secs) && |tags| <= |disk0| && Untouched(disk0, disk1, tags, id)
    ensures forall x: nat :: ByteAt(disk1, secs, x) == ByteAt(disk0, secs, x)
  {
    forall x: nat
      ensures ByteAt(disk1, secs, x) == ByteAt(disk0, secs, x)
    {
      var q := Pos(x / 512);
      if q < |secs| {
        assert tags[secs[q]] == Own(id, q);
      }
    }
  }

  lemma UntouchedRep(disk0: seq<Block>, disk1: seq<Block>, tags: seq<Tag>, id: nat, d: InodeDisk, secs: seq<nat>)
    requires Claims(tags, id, secs) && |tags| <= |disk0| && Untouched(disk0, disk1, tags, id)
    requires Rep(disk0, d, secs)
    ensures Rep(disk1, d, secs)
  {
    forall q | 0 <= q < |secs|
      ensures disk0[secs[q]] == disk1[secs[q]]
    {
      assert tags[secs[q]] == Own(id, q);
    }
    RepFrame(disk0, disk1, d, secs);
  }

  /** A file none of whose sectors changes keeps its structure and its bytes. */
  lemma UntouchedFile(disk0: seq<Block>, disk1: seq<Block>, tags0: seq<Tag>, tags1: seq<Tag>, id: nat, d: InodeDisk, secs: seq<nat>)
    requires IsFile(disk0, tags0, id, d, secs) && |tags0| <= |disk0| && |tags1| == |tags0|
    requires forall t :: 0 <= t < |tags0| && tags0[t].Own? && tags0[t].id == id ==> tags1[t] == tags0[t]
    requires Untouched(disk0, disk1, tags0, id)
    ensures IsFile(disk1, tags1, id, d, secs)
    ensures forall n: nat :: Bytes(disk1, secs, n) == Bytes(disk0, secs, n)
  {
    UntouchedBytes(disk0, disk1, tags0, id, secs);
    UntouchedRep(disk0, disk1, tags0, id, d, secs);
    forall q | 0 <= q < |secs|
      ensures tags1[secs[q]] == Own(id, q)
    {
      assert tags0[secs[q]] == Own(id, q);
    }
  }

  // ----- A file after inode_reserve -----

  lemma GrownByte(disk0: seq<Block>, disk1: seq<Block>, tags0: seq<Tag>, tags1: seq<Tag>, id: nat, d: InodeDisk,
                  secs0: seq<nat>, secs1: seq<nat>, n: nat, x: nat)
    requires IsFile(disk0, tags0, id, d, secs0) && Reserved(disk0, disk1, tags0, tags1, id, secs0, secs1, 0, END)
    requires |secs1| == Cost(n) && x < 512 * n && |tags0| <= |disk0|
    ensures ByteAt(disk1, secs1, x) == if x < d.length then ByteAt(disk0, secs0, x) else 0
  {
    assert Open(true);
    var i := x / 512;
    InFile(i, n);
    InFile(i, Sectors(d.length));
    PosIsData(i);
    if Pos(i) < |secs0| {
      assert tags1[secs1[Pos(i)]] == Own(id, Pos(i)) && secs1[Pos(i)] == secs0[Pos(i)];
      assert disk1[secs1[Pos(i)]] == disk0[secs0[Pos(i)]];
      assert ByteAt(disk1, secs1, x) == ByteAt(disk0, secs0, x);
    } else {
      assert disk1[secs1[Pos(i)]] == Zeros();
      assert x >= d.length;
    }
  }

  /** The file after a successful reserve and the new length: its old bytes followed by zeros. */
  lemma GrownFile(disk0: seq<Block>, disk1: seq<Block>, tags0: seq<Tag>, tags1: seq<Tag>, id: nat, d0: InodeDisk, d1: InodeDisk,
                  secs0: seq<nat>, secs1: seq<nat>, end: Word)
    requires IsFile(disk0, tags0, id, d0, secs0) && Reserved(disk0, disk1, tags0, tags1, id, secs0, secs1, 0, END)
    requires Zones(disk1, d1, secs1) && |secs1| == Cost(Sectors(end)) && Sectors(end) <= MAX_SECTORS
    requires d0.length <= end && |tags0| <= |disk0|
    ensures IsFile(disk1, tags1, id, d1.(length := end), secs1)
    ensures Bytes(disk1, secs1, end) == Extended(Bytes(disk0, secs0, d0.length), end)
  {
    ReservedFacts(disk0, disk1, tags0, tags1, id, secs0, secs1, 0, END);
    forall x | 0 <= x < 512 * Sectors(end)
      ensures ByteAt(disk1, secs1, x) == if x < d0.length then ByteAt(disk0, secs0, x) else 0
    {
      GrownByte(disk0, disk1, tags0, tags1, id, d0, secs0, secs1, Sectors(end), x);
    }
    assert Open(true);
  }

  /** The entries may differ, the rest of the inode but its length does not. */
  predicate SameKind(d0: InodeDisk, d1: InodeDisk) {
    d0.isDir == d1.isDir && d0.magic == d1.magic && |d0.direct| == |d1.direct|
  }

  lemma SameEntries(disk0: seq<Block>, disk1: seq<Block>, d0: InodeDisk, d1: InodeDisk, secs: seq<nat>)
    requires Zones(disk0, d0, secs) && Zones(disk1, d1, secs)
    requires d1 == d0.(direct := d1.direct, indirect := d1.indirect, doubly := d1.doubly)
    ensures d1 == d0
  {
    ZonesEntries(disk0, d0, secs);
    ZonesEntries(disk1, d1, secs);
    assert d1.direct == d0.direct;
  }

  lemma ReservedGrew(disk0: seq<Block>, disk1: seq<Block>, tags0: seq<Tag>, tags1: seq<Tag>, id: nat,
                     secs0: seq<nat>, secs1: seq<nat>, lo: nat, hi: nat)
    requires Reserved(disk0, disk1, tags0, tags1, id, secs0, secs1, lo, hi)
    ensures Grew(tags0, tags1, id, secs0, secs1)
  {
    assert Open(true);
  }

  /** inode_write_at after inode_reserve and before the inode is written back. */
  lemma AfterReserve(disk0: seq<Block>, disk1: seq<Block>, tags0: seq<Tag>, tags1: seq<Tag>, id: nat, d0: InodeDisk, d1: InodeDisk,
                     secs0: seq<nat>, secs1: seq<nat>, end: Word)
    requires IsFile(disk0, tags0, id, d0, secs0) && Reserved(disk0, disk1, tags0, tags1, id, secs0, secs1, 0, END)
    requires Zones(disk1, d1, secs1) && |secs1| == Max(|secs0|, Cost(Sectors(end)))
    requires d1 == d0.(direct := d1.direct, indirect := d1.indirect, doubly := d1.doubly)
    requires Sectors(end) <= MAX_SECTORS && |tags0| <= |disk0| && (d0.length < end || end == 0)
    ensures Grew(tags0, tags1, id, secs0, secs1) && FileOnly(disk0, disk1, tags1, id)
    ensures SameKind(d0, d1)
    ensures end == 0 ==> d1 == d0 && secs1 == secs0
    ensures end > 0 ==> IsFile(disk1, tags1, id, d1.(length := end), secs1)
                        && Bytes(disk1, secs1, end) == Extended(Bytes(disk0, secs0, d0.length), end)
  {
    ReservedGrew(disk0, disk1, tags0, tags1, id, secs0, secs1, 0, END);
    ReservedOnly(disk0, disk1, tags0, tags1, id, secs0, secs1, 0, END);
    ZonesEntries(disk1, d1, secs1);
    if end == 0 {
      assert Zones(disk0, d0, secs0);
      SameEntries(disk0, disk1, d0, d1, secs0);
    } else {
      CostGrows(Sectors(d0.length), Sectors(end));
      GrownFile(disk0, disk1, tags0, tags1, id, d0, d1, secs0, secs1, end);
    }
  }

  /** Only sectors of file ID, its inode included, and the contents of the free map file differ. */
  ghost predicate FileOnly(disk0: seq<Block>, disk1: seq<Block>, tags: seq<Tag>, id: nat) {
    FileOnlyBody(disk0, disk1, tags, id) == true
  }

  ghost predicate FileOnlyBody(disk0: seq<Block>, disk1: seq<Block>, tags: seq<Tag>, id: nat) {
    && |disk1| == |disk0|
    && forall t :: 0 <= t < |disk0| && disk1[t] != disk0[t] ==>
         t < |tags| && tags[t].Own? && (tags[t].id == id || MapData(tags[t]))
  }

  lemma ReservedOnly(disk0: seq<Block>, disk1: seq<Block>, tags0: seq<Tag>, tags1: seq<Tag>, id: nat,
                     secs0: seq<nat>, secs1: seq<nat>, lo: nat, hi: nat)
    requires Reserved(disk0, disk1, tags0, tags1, id, secs0, secs1, lo, hi)
    ensures FileOnly(disk0, disk1, tags1, id)
  {
    assert Open(true);
  }

  lemma FileOnlyMore(disk0: seq<Block>, disk1: seq<Block>, disk2: seq<Block>, tags: seq<Tag>, id: nat)
    requires FileOnly(disk0, disk1, tags, id) && FileOnly(disk1, disk2, tags, id)
    ensures FileOnly(disk0, disk2, tags, id)
  {
  }

  /** With FREE free sectors, a write up to END finds or can make room in a file of LENGTH bytes. */
  ghost predicate Fits(free: nat, secs: seq<nat>, length: nat, end: nat) {
    FitsBody(free, secs, length, end) == true
  }

  ghost predicate FitsBody(free: nat, secs: seq<nat>, length: nat, end: nat) {
    end <= length || (Sectors(end) <= MAX_SECTORS && Missing(secs, Cost(Sectors(end))) <= free)
  }

  lemma DataIsFileOnly(disk0: seq<Block>, disk1: seq<Block>, tags: seq<Tag>, id: nat)
    requires DataOnly(disk0, disk1, tags, id)
    ensures FileOnly(disk0, disk1, tags, id)
  {
  }

  /** A completed write of BUFFER at OFFSET into file ID: the buffer is spliced into the file's
      bytes, a longer file takes the first free sectors, and no other file's sectors change. */
  ghost predicate Written(disk0: seq<Block>, disk1: seq<Block>, tags0: seq<Tag>, tags1: seq<Tag>, id: nat,
                          d0: InodeDisk, d1: InodeDisk, secs0: seq<nat>, secs1: seq<nat>, offset: nat, buffer: seq<Byte>) {
    WrittenBody(disk0, disk1, tags0, tags1, id, d0, d1, secs0, secs1, offset, buffer) == true
  }

  ghost predicate WrittenBody(disk0: seq<Block>, disk1: seq<Block>, tags0: seq<Tag>, tags1: seq<Tag>, id: nat,
                              d0: InodeDisk, d1: InodeDisk, secs0: seq<nat>, secs1: seq<nat>, offset: nat, buffer: seq<Byte>) {
    forall b {:trigger Open(b)} :: Open(b) ==>
      && IsFile(disk1, tags1, id, d1, secs1)
      && SameKind(d0, d1)
      && d1.length == Max(d0.length, offset + |buffer|)
      && Bytes(disk1, secs1, d1.length) == Spliced(Bytes(disk0, secs0, d0.length), offset, buffer)
      && Grew(tags0, tags1, id, secs0, secs1)
      && FileOnly(disk0, disk1, tags1, id)
      && (d1.length > d0.length ==> id < |disk1| && disk1[id] == EncodeInode(d1))
      && (d1.length == d0.length ==> d1 == d0 && secs1 == secs0 && tags1 == tags0 && DataOnly(disk0, disk1, tags1, id)
                                     && Wrote(disk0, disk1, secs0, offset, buffer))
  }

  lemma WrittenInside(disk0: seq<Block>, disk1: seq<Block>, tags: seq<Tag>, id: nat, d: InodeDisk, secs: seq<nat>,
                      offset: nat, buffer: seq<Byte>)
    requires IsFile(disk0, tags, id, d, secs) && IsFile(disk1, tags, id, d, secs) && offset + |buffer| <= d.length
    requires Wrote(disk0, disk1, secs, offset, buffer) && DataOnly(disk0, disk1, tags, id)
    ensures Written(disk0, disk1, tags, tags, id, d, d, secs, secs, offset, buffer)
  {
    assert Open(true);
    WroteBytes(disk0, disk1, secs, d.length, offset, buffer);
    GrewNot(tags, id, secs);
    DataIsFileOnly(disk0, disk1, tags, id);
  }

  /** File ID extended to END bytes: its old bytes followed by zeros, its inode written back. */
  ghost predicate Lengthened(disk0: seq<Block>, disk1: seq<Block>, tags0: seq<Tag>, tags1: seq<Tag>, id: nat,
                             d0: InodeDisk, d1: InodeDisk, secs0: seq<nat>, secs1: seq<nat>, end: nat) {
    LengthenedBody(disk0, disk1, tags0, tags1, id, d0, d1, secs0, secs1, end) == true
  }

  ghost predicate LengthenedBody(disk0: seq<Block>, disk1: seq<Block>, tags0: seq<Tag>, tags1: seq<Tag>, id: nat,
                                 d0: InodeDisk, d1: InodeDisk, secs0: seq<nat>, secs1: seq<nat>, end: nat) {
    forall b {:trigger Open(b)} :: Open(b) ==>
      && IsFile(disk1, tags1, id, d1, secs1) && SameKind(d0, d1) && d1.length == end
      && Bytes(disk1, secs1, end) == Extended(Bytes(disk0, secs0, d0.length), end)
      && Grew(tags0, tags1, id, secs0, secs1) && FileOnly(disk0, disk1, tags1, id)
      && id < |disk1| && disk1[id] == EncodeInode(d1)
  }

  lemma ToLengthened(disk0: seq<Block>, disk1: seq<Block>, disk2: seq<Block>, tags0: seq<Tag>, tags1: seq<Tag>, id: nat,
                     d0: InodeDisk, d1: InodeDisk, secs0: seq<nat>, secs1: seq<nat>, end: nat)
    requires SameKind(d0, d1) && d1.length == end && Grew(tags0, tags1, id, secs0, secs1)
    requires IsFile(disk1, tags1, id, d1, secs1) && FileOnly(disk0, disk1, tags1, id)
    requires Bytes(disk1, secs1, end) == Extended(Bytes(disk0, secs0, d0.length), end)
    requires id < |tags1| < |disk1| && tags1[id] == Own(id, -1) && disk2 == disk1[id := EncodeInode(d1)]
    ensures Lengthened(disk0, disk2, tags0, tags1, id, d0, d1, secs0, secs1, end)
    ensures IsFile(disk2, tags1, id, d1, secs1)
  {
    UntouchedFile(disk1, disk2, tags1, tags1, id, d1, secs1);
    assert FileOnly(disk1, disk2, tags1, id);
    FileOnlyMore(disk0, disk1, disk2, tags1, id);
  }

  lemma WrittenBeyond(disk0: seq<Block>, disk1: seq<Block>, disk2: seq<Block>, tags0: seq<Tag>, tags1: seq<Tag>, id: nat,
                      d0: InodeDisk, d1: InodeDisk, secs0: seq<nat>, secs1: seq<nat>, offset: nat, buffer: seq<Byte>)
    requires Lengthened(disk0, disk1, tags0, tags1, id, d0, d1, secs0, secs1, offset + |buffer|)
    requires offset + |buffer| > d0.length && id < |tags1| && tags1[id] == Own(id, -1)
    requires IsFile(disk2, tags1, id, d1, secs1)
    requires Wrote(disk1, disk2, secs1, offset, buffer) && DataOnly(disk1, disk2, tags1, id)
    ensures Written(disk0, disk2, tags0, tags1, id, d0, d1, secs0, secs1, offset, buffer)
  {
    assert Open(true);
    SplicedExtended(Bytes(disk0, secs0, d0.length), offset, buffer);
    WroteBytes(disk1, disk2, secs1, d1.length, offset, buffer);
    DataIsFileOnly(disk1, disk2, tags1, id);
    FileOnlyMore(disk0, disk1, disk2, tags1, id);
    assert disk2[id] == disk1[id];
  }

  /** A write of no bytes at OFFSET: nothing within the file; at 0 the length is cut to 0, and past
      the end the file is extended to OFFSET, if it fits. */
  ghost predicate EmptyWrite(disk0: seq<Block>, disk1: seq<Block>, tags0: seq<Tag>, tags1: seq<Tag>, id: nat,
                             d0: InodeDisk, d1: InodeDisk, secs0: seq<nat>, secs1: seq<nat>, offset: nat) {
    EmptyWriteBody(disk0, disk1, tags0, tags1, id, d0, d1, secs0, secs1, offset) == true
  }

  ghost predicate EmptyWriteBody(disk0: seq<Block>, disk1: seq<Block>, tags0: seq<Tag>, tags1: seq<Tag>, id: nat,
                                 d0: InodeDisk, d1: InodeDisk, secs0: seq<nat>, secs1: seq<nat>, offset: nat) {
    if offset == 0 then
      && d1 == d0.(length := 0) && secs1 == secs0 && tags1 == tags0
      && |d1.direct| == DIRECT && id < |disk0| && disk1 == disk0[id := EncodeInode(d1)]
    else if offset <= d0.length then
      d1 == d0 && secs1 == secs0 && tags1 == tags0 && disk1 == disk0
    else if Fits(|FreeList(tags0)|, secs0, d0.length, offset) then
      Lengthened(disk0, disk1, tags0, tags1, id, d0, d1, secs0, secs1, offset)
    else
      d1.length == d0.length && Refused(disk0, disk1, tags0, tags1, id, secs0, secs1, Sectors(offset))
  }

  /** A write of no bytes at the start changes nothing exactly when the file is empty and its inode on the disk. */
  lemma EmptyWriteAtStart(disk0: seq<Block>, disk1: seq<Block>, tags0: seq<Tag>, tags1: seq<Tag>, id: nat,
                          d0: InodeDisk, d1: InodeDisk, secs0: seq<nat>, secs1: seq<nat>)
    requires EmptyWrite(disk0, disk1, tags0, tags1, id, d0, d1, secs0, secs1, 0)
    ensures |d0.direct| == DIRECT && id < |disk0| && tags1 == tags0
    ensures disk1 == disk0 && d1 == d0 <==> d0.length == 0 && disk0[id] == EncodeInode(d0)
  {
    if d0.length == 0 && disk0[id] == EncodeInode(d0) {
      assert d1 == d0 && disk1 == disk0;
    }
  }

  lemma WrittenFacts(disk0: seq<Block>, disk1: seq<Block>, tags0: seq<Tag>, tags1: seq<Tag>, id: nat,
                     d0: InodeDisk, d1: InodeDisk, secs0: seq<nat>, secs1: seq<nat>, offset: nat, buffer: seq<Byte>)
    requires Written(disk0, disk1, tags0, tags1, id, d0, d1, secs0, secs1, offset, buffer)
    ensures IsFile(disk1, tags1, id, d1, secs1) && SameKind(d0, d1) && d1.length == Max(d0.length, offset + |buffer|)
    ensures Bytes(disk1, secs1, d1.length) == Spliced(Bytes(disk0, secs0, d0.length), offset, buffer)
    ensures Grew(tags0, tags1, id, secs0, secs1) && FileOnly(disk0, disk1, tags1, id)
    ensures d1.length > d0.length ==> id < |disk1| && disk1[id] == EncodeInode(d1)
    ensures d1.length == d0.length ==> d1 == d0 && secs1 == secs0 && tags1 == tags0
    ensures d1.length == d0.length ==> DataOnly(disk0, disk1, tags1, id) && Wrote(disk0, disk1, secs0, offset, buffer)
  {
    assert Open(true);
  }
}
