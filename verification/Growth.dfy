/** What the growth of a file means for its cost, for growth in several steps, and for fragmentation. */
module Growth {
  import opened Blocks
  import opened Layout

  /** How many of the first k positions of a file hold data sectors. */
  ghost function DataBelow(k: nat): nat {
    if k == 0 then 0 else DataBelow(k - 1) + (if IsIndex(k - 1) then 0 else 1)
  }

  lemma {:induction false} DataBelowMore(j: nat, k: nat)
    requires j <= k
    ensures DataBelow(j) <= DataBelow(k)
  {
    if j < k {
      DataBelowMore(j, k - 1);
    }
  }

  /** The first Cost(n) positions hold n data sectors. */
  lemma {:induction false} CostHolds(n: nat)
    ensures DataBelow(Cost(n)) == n
  {
    if n > 0 {
      CostHolds(n - 1);
      CostIsEnd(n);
      PosIsData(n - 1);
      NoDataBetween(n - 1, Cost(n - 1));
    }
  }

  /** Between the end of n data sectors and the next data sector there are only index blocks. */
  lemma {:induction false} NoDataBetween(n: nat, k: nat)
    requires Cost(n) <= k <= Pos(n)
    ensures DataBelow(k) == DataBelow(Pos(n))
    decreases Pos(n) - k
  {
    if k < Pos(n) {
      if !IsIndex(k) {
        DataIsPos(k);
        InFile(DataIndex(k), n);
        PosIncreases(n, DataIndex(k));
      }
      NoDataBetween(n, k + 1);
    }
  }

  /** The exact price of a file that has n data sectors and ends with one: each of them, the indirect
      block beyond 123, and beyond 251 the doubly indirect block and one more index block for every
      128 sectors begun. All its sectors are different. */
  lemma {:induction false} ExactCost(tags0: seq<Tag>, tags1: seq<Tag>, id: nat, secs: seq<nat>, n: nat)
    requires Grew(tags0, tags1, id, [], secs) && DataBelow(|secs|) == n && (|secs| > 0 ==> !IsIndex(|secs| - 1))
    ensures |FreeList(tags0)| - |FreeList(tags1)|
            == n + (if n > DIRECT then 1 else 0) + (if n > SINGLE_END then 1 + (n - SINGLE_END + (PER_BLOCK - 1)) / PER_BLOCK else 0)
    ensures forall q, r :: 0 <= q < r < |secs| ==> secs[q] != secs[r]
  {
    CostHolds(n);
    if |secs| < Cost(n) {
      CostIsEnd(n);
      PosIsData(n - 1);
      DataBelowMore(|secs|, Cost(n) - 1);
    } else if |secs| > Cost(n) {
      DataBelowMore(Cost(n), |secs| - 1);
    }
    forall q, r | 0 <= q < r < |secs|
      ensures secs[q] != secs[r]
    {
      assert tags1[secs[q]] == Own(id, q);
    }
  }

  /** Growing in two steps takes the same sectors as growing at once. */
  lemma TwoStepsAreOne(tags0: seq<Tag>, tags1: seq<Tag>, tags2: seq<Tag>, once: seq<Tag>, id: nat,
                       secs0: seq<nat>, secs1: seq<nat>, secs2: seq<nat>, secsOnce: seq<nat>)
    requires Grew(tags0, tags1, id, secs0, secs1) && Grew(tags1, tags2, id, secs1, secs2)
    requires Grew(tags0, once, id, secs0, secsOnce) && |secsOnce| == |secs2|
    ensures secs2 == secsOnce && FreeList(tags2) == FreeList(once)
  {
    GrewMore(tags0, tags1, tags2, id, secs0, secs1, secs2);
    GrewPrefix(tags0, tags2, id, secs0, secs2);
    GrewPrefix(tags0, once, id, secs0, secsOnce);
  }

  /** Growth leaves the old data sectors in place and gives every new one a sector that was free,
      each a different one. */
  lemma GrowthIsMonotone(tags0: seq<Tag>, tags1: seq<Tag>, id: nat, secs0: seq<nat>, secs1: seq<nat>, m: nat, n: nat, i: nat)
    requires Grew(tags0, tags1, id, secs0, secs1) && |secs0| == Cost(m) && |secs1| == Cost(n) && i < n
    ensures Pos(i) < |secs1|
    ensures i < m ==> Pos(i) < |secs0| && secs1[Pos(i)] == secs0[Pos(i)]
    ensures i >= m ==> secs1[Pos(i)] < |tags0| && tags0[secs1[Pos(i)]] == Free
    ensures forall j :: 0 <= j < n && j != i ==> Pos(j) < |secs1| && secs1[Pos(j)] != secs1[Pos(i)]
  {
    InFile(i, n);
    InFile(i, m);
    GrewPrefix(tags0, tags1, id, secs0, secs1);
    forall j | 0 <= j < n && j != i
      ensures Pos(j) < |secs1| && secs1[Pos(j)] != secs1[Pos(i)]
    {
      InFile(j, n);
      PosInjective(i, j);
      assert tags1[secs1[Pos(j)]] == Own(id, Pos(j)) && tags1[secs1[Pos(i)]] == Own(id, Pos(i));
    }
  }

  // ----- Compact layout -----

  /** Exactly the sectors below m are in use. */
  ghost predicate PrefixUsed(tags: seq<Tag>, m: nat) {
    m <= |tags| && forall t :: 0 <= t < |tags| ==> (tags[t] == Free <==> m <= t)
  }

  /** A sector of the free map or the root directory, or one lost to a failed creation. */
  predicate SystemTag(tag: Tag) { tag == Lost || (tag.Own? && tag.id < 2) }

  /** Exactly the sectors below m are not for plain files to use. */
  ghost predicate SystemPrefix(tags: seq<Tag>, m: nat) {
    m <= |tags| && forall t :: 0 <= t < |tags| ==> (t < m <==> SystemTag(tags[t]))
  }

  // ----- Sectors in use that belong to nobody -----

  ghost predicate NoneLost(tags: seq<Tag>) {
    forall t :: 0 <= t < |tags| ==> tags[t] != Lost
  }

  /** The sectors that are lost are those that were. */
  ghost predicate LostKept(tags0: seq<Tag>, tags1: seq<Tag>) {
    |tags1| == |tags0| && forall t :: 0 <= t < |tags0| ==> (tags1[t] == Lost <==> tags0[t] == Lost)
  }

  /** The sectors not for plain files are the same, and used for the same; none is lost anew. */
  ghost predicate SystemKept(tags0: seq<Tag>, tags1: seq<Tag>) {
    && LostKept(tags0, tags1)
    && forall t :: 0 <= t < |tags0| && (SystemTag(tags0[t]) || SystemTag(tags1[t])) ==> tags1[t] == tags0[t]
  }

  lemma SystemKeptMore(tags0: seq<Tag>, tags1: seq<Tag>, tags2: seq<Tag>)
    requires SystemKept(tags0, tags1) && SystemKept(tags1, tags2)
    ensures SystemKept(tags0, tags2)
  {
  }

  /** Growing loses nothing. */
  lemma GrowthLosesNothing(tags0: seq<Tag>, tags1: seq<Tag>, id: nat, secs0: seq<nat>, secs1: seq<nat>)
    requires Grew(tags0, tags1, id, secs0, secs1)
    ensures LostKept(tags0, tags1)
  {
  }

  /** Besides those that were, exactly the sectors LOST are lost. */
  ghost predicate LostToo(tags0: seq<Tag>, tags1: seq<Tag>, lost: seq<nat>) {
    |tags1| == |tags0| && forall t :: 0 <= t < |tags0| ==> (tags1[t] == Lost <==> tags0[t] == Lost || t in lost)
  }

  /** Since TAGS0, file ID was given its inode's sector and SECS, and the sectors LOST were lost. */
  ghost predicate Given(tags0: seq<Tag>, tags1: seq<Tag>, id: nat, secs: seq<nat>, lost: seq<nat>) {
    GivenBody(tags0, tags1, id, secs, lost) == true
  }

  ghost predicate GivenBody(tags0: seq<Tag>, tags1: seq<Tag>, id: nat, secs: seq<nat>, lost: seq<nat>) {
    && LostToo(tags0, tags1, lost)
    && forall t :: 0 <= t < |tags0| ==> (tags1[t].Own? && tags1[t].id == id <==> t == id || t in secs)
  }

  /** Then another file is given sectors, and gives those from position FROM on up. */
  lemma GivenStill(tags0: seq<Tag>, tags1: seq<Tag>, tags2: seq<Tag>, id: nat, secs: seq<nat>, other: nat,
                   secs1: seq<nat>, secs2: seq<nat>)
    requires Given(tags0, tags1, id, secs, []) && Grew(tags1, tags2, other, secs1, secs2) && other != id
    requires forall t :: 0 <= t < |tags1| && tags1[t].Own? && tags1[t].id == other ==> tags1[t].pos < |secs1|
    ensures Given(tags0, LoseFrom(tags2, other, |secs1|), id, secs, News(secs1, secs2))
  {
    var tags3, news := LoseFrom(tags2, other, |secs1|), News(secs1, secs2);
    forall t | 0 <= t < |tags0|
      ensures tags3[t] == Lost <==> tags0[t] == Lost || t in news
    {
      if t in news {
        var k :| 0 <= k < |news| && news[k] == t;
        assert tags2[secs2[|secs1| + k]] == Own(other, |secs1| + k);
      }
      if tags3[t] == Lost && tags2[t] != Lost {
        assert news[tags2[t].pos - |secs1|] == t;
      }
    }
  }

  lemma LostIsNotOwned(tags0: seq<Tag>, tags1: seq<Tag>, id: nat, secs: seq<nat>, lost: seq<nat>)
    requires Given(tags0, tags1, id, secs, lost) && id < |tags1| && tags1[id] != Lost
    ensures id !in lost
  {
  }

  /** Writing off what was given, all but the inode's sector. */
  lemma GivenIsLost(tags0: seq<Tag>, tags1: seq<Tag>, id: nat, secs: seq<nat>, lost: seq<nat>)
    requires Given(tags0, tags1, id, secs, lost) && id < |tags0| && tags0[id] == Free && id !in secs + lost
    ensures LostToo(tags0, Lose(tags1[id := Free], id), secs + lost)
  {
  }

  /** TAGS with the sectors LOST written off. */
  function WrittenOff(tags: seq<Tag>, lost: seq<nat>): (r: seq<Tag>)
    ensures |r| == |tags|
  {
    seq(|tags|, t requires 0 <= t < |tags| => if t in lost then Lost else tags[t])
  }

  /** A growing plain file takes sectors from no one. */
  lemma GrowthKeepsSystem(tags0: seq<Tag>, tags1: seq<Tag>, id: nat, secs0: seq<nat>, secs1: seq<nat>)
    requires Grew(tags0, tags1, id, secs0, secs1) && id >= 2
    ensures SystemKept(tags0, tags1)
  {
  }

  /** The map with every plain file's sectors taken back. */
  function Emptied(tags: seq<Tag>): (r: seq<Tag>)
    ensures |r| == |tags|
  {
    seq(|tags|, t requires 0 <= t < |tags| => if SystemTag(tags[t]) then tags[t] else Free)
  }

  /** The sectors for plain files to use, in increasing order. */
  function PlainSectors(tags: seq<Tag>): seq<nat> { FreeList(Emptied(tags)) }

  lemma PlainKept(tags0: seq<Tag>, tags1: seq<Tag>)
    requires SystemKept(tags0, tags1)
    ensures PlainSectors(tags1) == PlainSectors(tags0)
  {
    FreeSuffix(Emptied(tags1), Emptied(tags0), 0);
  }

  lemma PlainAreFree(tags: seq<Tag>)
    requires forall t :: 0 <= t < |tags| && tags[t].Own? ==> tags[t].id < 2
    ensures PlainSectors(tags) == FreeList(tags)
  {
    FreeSuffix(Emptied(tags), tags, 0);
  }

  lemma {:induction false} PrefixFrom(tags: seq<Tag>, m: nat, i: nat)
    requires PrefixUsed(tags, m) && m <= i <= |tags|
    ensures FreeFrom(tags, i) == seq(|tags| - i, k => i + k)
    decreases |tags| - i
  {
    if i < |tags| {
      PrefixFrom(tags, m, i + 1);
      var rest := seq(|tags| - i - 1, k => i + 1 + k);
      assert FreeFrom(tags, i) == [i] + rest;
      forall k | 0 <= k < |tags| - i
        ensures ([i] + rest)[k] == i + k
      {
      }
    }
  }

  lemma {:induction false} FreeMember(tags: seq<Tag>, i: nat, t: nat)
    requires i <= t < |tags| && tags[t] == Free
    ensures t in FreeFrom(tags, i)
    decreases t - i
  {
    if i < t {
      FreeMember(tags, i + 1, t);
    }
  }

  /** When the free sectors are those from M on, the used ones are a prefix. */
  lemma RunIsPrefix(tags: seq<Tag>, m: nat)
    requires m <= |tags| && FreeList(tags) == seq(|tags| - m, k => m + k)
    ensures PrefixUsed(tags, m)
  {
    forall t | 0 <= t < |tags|
      ensures tags[t] == Free <==> m <= t
    {
      if tags[t] == Free {
        FreeMember(tags, 0, t);
      }
      if m <= t {
        assert FreeList(tags)[t - m] == t;
      }
    }
  }

  /** Then the free list is one run of consecutive sectors. */
  lemma PrefixFreeList(tags: seq<Tag>, m: nat)
    requires PrefixUsed(tags, m)
    ensures FreeList(tags) == seq(|tags| - m, k => m + k)
  {
    FreeSkip(tags, 0, m);
    PrefixFrom(tags, m, m);
  }

  /** Behind a prefix of other sectors, those for plain files are consecutive. */
  lemma PlainRun(tags: seq<Tag>, m: nat)
    requires SystemPrefix(tags, m)
    ensures PlainSectors(tags) == seq(|tags| - m, k => m + k)
  {
    PrefixFreeList(Emptied(tags), m);
  }

  /** A file that grows while the used sectors form a prefix takes the next sectors in a row, and
      the used sectors are still a prefix. */
  lemma PrefixGrows(tags0: seq<Tag>, tags1: seq<Tag>, id: nat, secs0: seq<nat>, secs1: seq<nat>, m: nat)
    requires PrefixUsed(tags0, m) && Grew(tags0, tags1, id, secs0, secs1)
    ensures PrefixUsed(tags1, m + |secs1| - |secs0|)
    ensures forall q :: |secs0| <= q < |secs1| ==> secs1[q] == m + q - |secs0|
  {
    PrefixFreeList(tags0, m);
    GrewPrefix(tags0, tags1, id, secs0, secs1);
    var d := |secs1| - |secs0|;
    forall q | |secs0| <= q < |secs1|
      ensures secs1[q] == m + q - |secs0|
    {
      assert secs1[q] == FreeList(tags0)[q - |secs0|];
    }
    forall t | 0 <= t < |tags1|
      ensures tags1[t] == Free <==> m + d <= t
    {
      if m <= t < m + d {
        assert secs1[|secs0| + t - m] == t;
      }
    }
  }

  /** The sectors of a file as they come out of one run of the free list. */
  ghost predicate Compact(secs: seq<nat>) {
    forall q, r :: 0 <= q <= r < |secs| ==> secs[r] == secs[q] + (r - q)
  }

  /** Data sector i + 1 follows data sector i at a distance between 1 and 3. */
  predicate Near(secs: seq<nat>, i: nat) {
    Pos(i) < Pos(i + 1) < |secs| && 1 <= (secs[Pos(i + 1)] as int) - secs[Pos(i)] <= 3
  }

  /** The difference of two sector numbers as fragmented_file takes it: unsigned, of 32 bits. */
  function Difference(a: nat, b: nat): nat { (b - a) % 0x1_0000_0000 }

  /** Data sector i + 1 lies before data sector i, or more than three behind it. */
  predicate WideGap(secs: seq<nat>, i: nat) {
    Pos(i) < Pos(i + 1) < |secs| && (secs[Pos(i + 1)] < secs[Pos(i)] || secs[Pos(i + 1)] > secs[Pos(i)] + 3)
  }

  /** For sectors of a device a difference above 3 means just that. */
  lemma DifferenceIsWide(a: nat, b: nat)
    requires a < 0xFFFF_FFFD && 0 < b < 0xFFFF_FFFD
    ensures Difference(a, b) > 3 <==> b < a || b > a + 3
  {
  }

  /** Some two consecutive data sectors of the n are more than three apart. */
  predicate Fragmented(secs: seq<nat>, n: nat) {
    exists i :: 0 <= i < n - 1 && WideGap(secs, i)
  }

  /** Said of the sector numbers. */
  lemma FragmentedIs(secs: seq<nat>, n: nat)
    requires |secs| == Cost(n)
    ensures Fragmented(secs, n) <==>
            exists i, j :: 0 <= i < j < n && j == i + 1 && (At(secs, Pos(j)) < At(secs, Pos(i)) || At(secs, Pos(j)) > At(secs, Pos(i)) + 3)
  {
    forall i | 0 <= i < n - 1
      ensures WideGap(secs, i) <==> At(secs, Pos(i + 1)) < At(secs, Pos(i)) || At(secs, Pos(i + 1)) > At(secs, Pos(i)) + 3
    {
      InFile(i + 1, n);
      Gaps(i);
    }
    if Fragmented(secs, n) {
      var i :| 0 <= i < n - 1 && WideGap(secs, i);
      var j := i + 1;
      assert At(secs, Pos(j)) < At(secs, Pos(i)) || At(secs, Pos(j)) > At(secs, Pos(i)) + 3;
    }
  }

  /** A compact file is not fragmented: its data sectors increase by at most 3, and by exactly 3
      at the entry to the doubly indirect zone. */
  lemma CompactIsWhole(secs: seq<nat>, n: nat)
    requires Compact(secs) && |secs| == Cost(n)
    ensures !Fragmented(secs, n)
    ensures forall i :: 0 <= i < n - 1 ==> Near(secs, i)
    ensures n > SINGLE_END ==>
              Pos(SINGLE_END - 1) < Pos(SINGLE_END) < |secs| && secs[Pos(SINGLE_END)] == secs[Pos(SINGLE_END - 1)] + 3
  {
    forall i | 0 <= i < n - 1
      ensures Near(secs, i) && !WideGap(secs, i)
    {
      InFile(i + 1, n);
      Gaps(i);
    }
    if n > SINGLE_END {
      InFile(SINGLE_END, n);
    }
  }
}
