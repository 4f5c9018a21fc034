/** What releasing the sectors of a file does: the counterpart of Reserving. */
module Releasing {
  import opened Blocks
  import opened Layout
  import opened Reserving

  /** Positions [lo, hi) of SECS belong to file ID. */
  ghost predicate ClaimsIn(tags: seq<Tag>, id: nat, secs: seq<nat>, lo: nat, hi: nat) {
    hi <= |secs| && forall q :: lo <= q < hi ==> 0 < secs[q] < |tags| && tags[secs[q]] == Own(id, q)
  }

  /** Sector t stands in SECS at a position in [lo, hi). */
  predicate Within(tag: Tag, t: nat, id: nat, secs: seq<nat>, lo: nat, hi: nat) {
    tag.Own? && tag.id == id && lo <= tag.pos < hi && tag.pos < |secs| && secs[tag.pos] == t
  }

  /** Exactly the sectors at positions [lo, hi) of file ID were released, each once, and nothing
      was written but the free map file. */
  ghost predicate Released(disk0: seq<Block>, disk1: seq<Block>, tags0: seq<Tag>, tags1: seq<Tag>, id: nat,
                           secs: seq<nat>, lo: nat, hi: nat) {
    ReleasedBody(disk0, disk1, tags0, tags1, id, secs, lo, hi) == true
  }

  ghost predicate ReleasedBody(disk0: seq<Block>, disk1: seq<Block>, tags0: seq<Tag>, tags1: seq<Tag>, id: nat,
                               secs: seq<nat>, lo: nat, hi: nat) {
    forall b {:trigger Open(b)} :: Open(b) ==>
      && |tags1| == |tags0| && lo <= hi
      && (forall t :: 0 <= t < |tags0| ==>
           tags1[t] == if Within(tags0[t], t, id, secs, lo, hi) then Free else tags0[t])
      && |FreeList(tags1)| == |FreeList(tags0)| + hi - lo
      && DataOnly(disk0, disk1, tags0, 0)
  }

  lemma ReleasedNothing(disk: seq<Block>, tags: seq<Tag>, id: nat, secs: seq<nat>, lo: nat)
    ensures Released(disk, disk, tags, tags, id, secs, lo, lo)
  {
    assert Open(true);
  }

  /** free_map_release of the sector at position p. */
  lemma ReleasedOne(disk0: seq<Block>, disk1: seq<Block>, tags0: seq<Tag>, tags1: seq<Tag>, id: nat, secs: seq<nat>, p: nat)
    requires id != 0 && ClaimsIn(tags0, id, secs, p, p + 1)
    requires tags1 == tags0[secs[p] := Free] && DataOnly(disk0, disk1, tags1, 0)
    ensures Released(disk0, disk1, tags0, tags1, id, secs, p, p + 1)
  {
    assert Open(true);
    ReleaseOne(tags0, secs[p], 0);
  }

  /** Two adjacent ranges, released in either order. */
  lemma ReleasedMore(disk0: seq<Block>, disk1: seq<Block>, disk2: seq<Block>, tags0: seq<Tag>, tags1: seq<Tag>,
                     tags2: seq<Tag>, id: nat, secs: seq<nat>, lo: nat, mid: nat, hi: nat)
    requires id != 0
    requires || (Released(disk0, disk1, tags0, tags1, id, secs, lo, mid) && Released(disk1, disk2, tags1, tags2, id, secs, mid, hi))
             || (Released(disk0, disk1, tags0, tags1, id, secs, mid, hi) && Released(disk1, disk2, tags1, tags2, id, secs, lo, mid))
    ensures Released(disk0, disk2, tags0, tags2, id, secs, lo, hi)
  {
    assert Open(true);
    forall t | 0 <= t < |disk0| && disk2[t] != disk0[t]
      ensures t < |tags0| && tags0[t].Own? && tags0[t].id == 0 && tags0[t].pos >= 0 && !IsIndex(tags0[t].pos)
    {
      if disk2[t] == disk1[t] {
        assert disk1[t] != disk0[t];
      }
    }
  }

  /** What has not been released yet still belongs to the file. */
  lemma ReleasedKeeps(disk0: seq<Block>, disk1: seq<Block>, tags0: seq<Tag>, tags1: seq<Tag>, id: nat, secs: seq<nat>,
                      lo: nat, hi: nat, lo1: nat, hi1: nat)
    requires Released(disk0, disk1, tags0, tags1, id, secs, lo, hi) && ClaimsIn(tags0, id, secs, lo1, hi1)
    requires hi <= lo1 || hi1 <= lo
    ensures ClaimsIn(tags1, id, secs, lo1, hi1)
  {
    assert Open(true);
  }

  /** The index blocks stay on the disk while the sectors below them are released. */
  lemma {:induction false} ReleasedTree(disk0: seq<Block>, disk1: seq<Block>, tags0: seq<Tag>, tags1: seq<Tag>, id: nat, secs: seq<nat>,
                     lo: nat, hi: nat, level: nat, p: nat, end: nat)
    requires Released(disk0, disk1, tags0, tags1, id, secs, lo, hi) && id != 0
    requires IndexHome(level, p) && p < end && ClaimsIn(tags0, id, secs, p, end)
    requires level == 2 ==> end == |secs|
    requires Tree(disk0, secs, level, p)
    ensures Tree(disk1, secs, level, p)
  {
    assert Open(true);
    assert disk1[secs[p]] == disk0[secs[p]];
    if level == 2 {
      forall j | 0 <= j < PER_BLOCK
        ensures Tree(disk1, secs, 1, Child(2, p, j))
      {
        assert Tree(disk0, secs, 1, Child(2, p, j));
        var c := Child(2, p, j);
        if c < |secs| {
          assert disk1[secs[c]] == disk0[secs[c]];
        }
      }
    }
  }

  /** Releasing what a file has gained since it had SECS0 gives back the free map of that time. */
  lemma ReserveThenRelease(disk1: seq<Block>, disk2: seq<Block>, tags0: seq<Tag>, tags1: seq<Tag>, tags2: seq<Tag>, id: nat,
                           secs0: seq<nat>, secs1: seq<nat>)
    requires Grew(tags0, tags1, id, secs0, secs1)
    requires Released(disk1, disk2, tags1, tags2, id, secs1, |secs0|, |secs1|)
    ensures tags2 == tags0
  {
    assert Open(true);
    GrewPrefix(tags0, tags1, id, secs0, secs1);
    forall t | 0 <= t < |tags0|
      ensures tags2[t] == tags0[t]
    {
      if Within(tags1[t], t, id, secs1, |secs0|, |secs1|) {
        var k := tags1[t].pos - |secs0|;
        assert t == FreeList(tags0)[k];
      }
    }
  }
}
