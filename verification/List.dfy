/** The intrusive doubly linked list of list.c: links are rewired in place between two sentinels. */
module List {
  import opened SortSpec

  /** The address of the structure that embeds an element: what list_entry computes. */
  type Address = nat

  /** struct list_elem, with the structure it is embedded in. */
  class Elem {
    var prev: Elem?
    var next: Elem?
    /** The structure that embeds this element. */
    const item: Address

    constructor (item: Address)
      ensures prev == null && next == null && this.item == item
    {
      this.item := item;
      prev := null;
      next := null;
    }
  }

  ghost predicate Distinct(f: seq<Elem>) {
    forall i, j :: 0 <= i < j < |f| ==> f[i] != f[j]
  }

  /** f runs from a head to a tail sentinel and its links are mutual inverses. */
  ghost predicate Linked(f: seq<Elem>)
    reads f
  {
    && |f| >= 2
    && Distinct(f)
    && f[0].prev == null && f[|f| - 1].next == null
    && (forall i {:trigger f[i].next} :: 0 <= i < |f| - 1 ==> f[i].next == f[i + 1])
    && (forall i {:trigger f[i].prev} :: 0 < i < |f| ==> f[i].prev == f[i - 1])
  }

  /** s is a chain of elements whose inner links are mutual inverses. */
  ghost predicate Segment(s: seq<Elem>)
    reads s
  {
    && |s| > 0
    && Distinct(s)
    && (forall i {:trigger s[i].next} :: 0 <= i < |s| - 1 ==> s[i].next == s[i + 1])
    && (forall i {:trigger s[i].prev} :: 0 < i < |s| ==> s[i].prev == s[i - 1])
  }

  ghost predicate Disjoint(s: seq<Elem>, t: seq<Elem>) {
    forall i, j :: 0 <= i < |s| && 0 <= j < |t| ==> s[i] != t[j]
  }

  lemma HookedDistinct(f: seq<Elem>, s: seq<Elem>, p: nat)
    requires Distinct(f) && Distinct(s) && Disjoint(s, f) && p <= |f|
    ensures Distinct(f[..p] + s + f[p..])
  {
  }

  lemma UnhookedDistinct(f: seq<Elem>, i: nat, j: nat)
    requires Distinct(f) && i < j <= |f|
    ensures Distinct(f[..i] + f[j..]) && Distinct(f[i..j]) && Disjoint(f[i..j], f[..i] + f[j..])
  {
  }

  /** Taking [i, j) out and putting it back in front of b is a splice. */
  lemma SplicedParts<T>(f: seq<T>, b: nat, i: nat, j: nat)
    requires i < j <= |f| && b <= |f| && (b < i || j <= b)
    ensures var p := if b < i then b else b - (j - i);
            Spliced(f, b, i, j) == (f[..i] + f[j..])[..p] + f[i..j] + (f[..i] + f[j..])[p..]
  {
  }

  lemma SplicedElements<T>(f: seq<T>, b: nat, i: nat, j: nat)
    requires i < j <= |f| && b <= |f| && (b < i || j <= b)
    ensures forall x :: x in Spliced(f, b, i, j) <==> x in f
  {
    var g := Spliced(f, b, i, j);
    forall k | 0 <= k < |f|
      ensures f[k] in g
    {
      // a splice is undone by moving the range back
      var from := if b < i then b else b - (j - i);
      var back := if b < i then j else i;
      assert g[Source(k, back, from, from + (j - i))] == f[k];
    }
  }

  /** The structures that embed the elements between the sentinels. */
  ghost function Items(f: seq<Elem>): (s: seq<Address>)
    requires |f| >= 2
    ensures |s| == |f| - 2 && forall k :: 0 <= k < |s| ==> s[k] == f[k + 1].item
  {
    seq(|f| - 2, k requires 0 <= k < |f| - 2 => f[k + 1].item)
  }

  /** Between fixed sentinels a splice acts on the items. */
  lemma SplicedItems(f: seq<Elem>, b: nat, m: nat)
    requires |f| >= 2 && b < m < |f| - 2
    ensures |Spliced(f, b + 1, m + 1, m + 2)| == |f|
    ensures Items(Spliced(f, b + 1, m + 1, m + 2)) == Spliced(Items(f), b, m, m + 1)
  {
  }

  class LinkedList {
    const head: Elem
    const tail: Elem
    /** The elements in order, sentinels included. */
    ghost var full: seq<Elem>

    ghost predicate Valid()
      reads this, full
    {
      Linked(full) && full[0] == head && full[|full| - 1] == tail
    }

    /** The elements and both sentinels. */
    ghost function Repr(): set<Elem>
      reads this
    {
      set x | x in full
    }

    /** The elements in order. */
    ghost function Elems(): (s: seq<Elem>)
      requires |full| >= 2
      reads this
      ensures |s| == |full| - 2 && forall k :: 0 <= k < |s| ==> s[k] == full[k + 1]
    {
      full[1..|full| - 1]
    }

    /** llist_init; the sentinels embed nothing, so their item is arbitrary. */
    constructor (filler: Address)
      ensures Valid() && Elems() == [] && fresh(head) && fresh(tail)
    {
      head := new Elem(filler);
      tail := new Elem(filler);
      full := [head, tail];
      new;
      head.next := tail;
      tail.prev := head;
    }

    method Empty() returns (r: bool)
      requires Valid()
      ensures r == (Elems() == [])
    {
      r := head.next == tail;
      assert full[0].next == full[1];
    }

    /** list_size */
    method Size() returns (cnt: nat)
      requires Valid()
      ensures cnt == |Elems()|
    {
      var e := head.next;
      cnt := 0;
      assert full[0].next == full[1];
      while e != tail
        invariant cnt <= |Elems()| && e == full[cnt + 1]
        decreases |Elems()| - cnt
      {
        e := e.next;
        cnt := cnt + 1;
      }
    }

    /** Takes the chain from FIRST to FINAL out of the list. */
    method Unhook(first: Elem, final: Elem, ghost i: nat, ghost j: nat)
      requires Valid() && 0 < i < j < |full| && first == full[i] && final == full[j - 1]
      modifies this, full
      ensures Valid() && full == old(full)[..i] + old(full)[j..]
      ensures Segment(old(full)[i..j]) && Disjoint(old(full)[i..j], full)
      ensures final.next == full[i]
    {
      ghost var f := full;
      assert first.prev == f[i - 1] && final.next == f[j];
      first.prev.next := final.next;
      final.next.prev := first.prev;
      ghost var g := f[..i] + f[j..];
      UnhookedDistinct(f, i, j);
      forall k | 0 <= k < |g| - 1
        ensures g[k].next == g[k + 1]
      {
        assert k < i - 1 ==> f[k].next == f[k + 1];
        assert k >= i ==> f[k + j - i].next == f[k + j - i + 1];
      }
      full := g;
    }

    /** Puts the chain from FIRST to FINAL in front of BEFORE. */
    method Hook(before: Elem, first: Elem, final: Elem, ghost p: nat, ghost s: seq<Elem>)
      requires Valid() && 0 < p < |full| && before == full[p]
      requires Segment(s) && Disjoint(s, full) && first == s[0] && final == s[|s| - 1]
      modifies this, full, s
      ensures Valid() && full == old(full)[..p] + s + old(full)[p..]
    {
      ghost var f := full;
      assert before.prev == f[p - 1];
      first.prev := before.prev;
      final.next := before;
      before.prev.next := first;
      before.prev := final;
      HookedDistinct(f, s, p);
      full := f[..p] + s + f[p..];
    }

    /** list_insert in front of the element at position p, or of the tail. */
    method Insert(before: Elem, elem: Elem, ghost p: nat)
      requires Valid() && p <= |Elems()| && before == full[p + 1] && elem !in full
      modifies this, full, elem
      ensures Valid() && Elems() == old(Elems())[..p] + [elem] + old(Elems())[p..]
    {
      Hook(before, elem, elem, p + 1, [elem]);
    }

    method PushBack(elem: Elem)
      requires Valid() && elem !in full
      modifies this, full, elem
      ensures Valid() && Elems() == old(Elems()) + [elem]
    {
      assert full[|full| - 1].prev == full[|full| - 2];
      Insert(tail, elem, |Elems()|);
    }

    method PushFront(elem: Elem)
      requires Valid() && elem !in full
      modifies this, full, elem
      ensures Valid() && Elems() == [elem] + old(Elems())
    {
      assert full[0].next == full[1] && full[1].prev == full[0];
      Insert(head.next, elem, 0);
    }

    /** list_remove; the removed element keeps its own links. */
    method Remove(elem: Elem, ghost p: nat) returns (next: Elem)
      requires Valid() && p < |Elems()| && elem == Elems()[p]
      modifies this, full
      ensures Valid() && Elems() == old(Elems())[..p] + old(Elems())[p + 1..]
      ensures next == full[p + 1] && elem !in full && Repr() <= old(Repr())
      ensures Items(full) == Items(old(full))[..p] + Items(old(full))[p + 1..]
    {
      ghost var f, s := full, Items(full);
      Unhook(elem, elem, p + 1, p + 2);
      next := elem.next;
      assert Items(full) == s[..p] + s[p + 1..];
    }

    /** list_splice: [first, last) is unhooked and put in front of BEFORE, all in this list. */
    method Splice(before: Elem, first: Elem, last: Elem, ghost b: nat, ghost i: nat, ghost j: nat)
      requires Valid() && 0 < i <= j < |full| && 0 < b < |full| && (b < i || j <= b || i == j)
      requires before == full[b] && first == full[i] && last == full[j]
      modifies this, Repr()
      ensures Valid() && Repr() == old(Repr())
      ensures i == j ==> full == old(full)
      ensures i < j ==> full == Spliced(old(full), b, i, j)
    {
      if first == last {
        return;
      }
      ghost var f, p := full, if b < i then b else b - (j - i);
      var final := last.prev;
      assert final == f[j - 1];
      Unhook(first, final, i, j);
      assert full[p] == f[b];
      Hook(before, first, final, p, f[i..j]);
      SplicedParts(f, b, i, j);
      SplicedElements(f, b, i, j);
    }

    /** list_splice from another list. */
    method SpliceFrom(other: LinkedList, before: Elem, first: Elem, last: Elem, ghost b: nat, ghost i: nat, ghost j: nat)
      requires Valid() && other.Valid() && other != this && Disjoint(other.full, full)
      requires 0 < i <= j < |other.full| && 0 < b < |full|
      requires before == full[b] && first == other.full[i] && last == other.full[j]
      modifies this, other, full, other.full
      ensures Valid() && other.Valid() && Disjoint(other.full, full)
      ensures full == old(full)[..b] + old(other.full)[i..j] + old(full)[b..]
      ensures other.full == old(other.full)[..i] + old(other.full)[j..]
    {
      if first == last {
        return;
      }
      ghost var f := other.full;
      var final := last.prev;
      assert final == f[j - 1];
      other.Unhook(first, final, i, j);
      Hook(before, first, final, b, f[i..j]);
    }

    // ----- Ordered operations -----

    /** find_end_of_run from the element at position lo to the one at position hi. */
    method FindEndOfRun(a: Elem, b: Elem, less: (Address, Address) -> bool, ghost lo: nat, ghost hi: nat) returns (e: Elem)
      requires Valid() && lo < hi < |full| - 1 && a == full[lo + 1] && b == full[hi + 1]
      ensures e == full[RunEnd(Items(full), less, lo, hi) + 1]
    {
      ghost var k: nat, s := lo + 1, Items(full);
      e := a.next;
      while e != b && !less(e.item, e.prev.item)
        invariant lo < k <= hi && e == full[k + 1]
        invariant RunEnd(s, less, lo, hi) == RunEnd(s, less, k - 1, hi)
        decreases hi - k
      {
        e := e.next;
        k := k + 1;
      }
    }

    /** The splicing branch of inplace_merge: b moves in front of a. */
    method TakeFromRight(a: Elem, b: Elem, ghost i: nat, ghost m: nat) returns (next: Elem)
      requires Valid() && i < m < |full| - 2 && a == full[i + 1] && b == full[m + 1]
      modifies this, Repr()
      ensures Valid() && Repr() == old(Repr()) && |full| == |old(full)|
      ensures Items(full) == Spliced(Items(old(full)), i, m, m + 1)
      ensures next == full[m + 2] && a == full[i + 2]
      ensures forall k :: m + 1 < k < |full| ==> full[k] == old(full)[k]
    {
      ghost var f := full;
      SplicedItems(f, i, m);
      next := b.next;
      assert next == f[m + 2] && next.prev == b;
      Splice(a, next.prev, next, i + 1, m + 1, m + 2);
    }

    /** inplace_merge of the runs from a0 to a1b0 and from a1b0 to b1. */
    method InplaceMerge(a0: Elem, a1b0: Elem, b1: Elem, less: (Address, Address) -> bool,
                        ghost i0: nat, ghost m0: nat, ghost e: nat)
      requires Valid() && i0 <= m0 <= e < |full| - 1
      requires a0 == full[i0 + 1] && a1b0 == full[m0 + 1] && b1 == full[e + 1]
      modifies this, Repr()
      ensures Valid() && Repr() == old(Repr()) && |full| == |old(full)| && full[e + 1] == b1
      ensures Items(full) == Merged(Items(old(full)), less, i0, m0, e)
    {
      var a, b := a0, a1b0;
      ghost var i: nat, m: nat := i0, m0;
      ghost var goal, repr, n := Merged(Items(full), less, i, m, e), Repr(), |full|;
      while a != b && b != b1
        invariant Valid() && Repr() == repr && |full| == n && i <= m <= e < n - 1
        invariant a == full[i + 1] && b == full[m + 1] && b1 == full[e + 1]
        invariant MergesTo(Items(full), less, i, m, e, goal)
        decreases e - m, m - i
      {
        MergesNext(Items(full), less, i, m, e, goal);
        if !less(b.item, a.item) {
          a := a.next;
        } else {
          b := TakeFromRight(a, b, i, m);
          m := m + 1;
        }
        i := i + 1;
      }
      MergesEnd(Items(full), less, i, m, e, goal);
    }

    /** The body of a pass: finds the run [a, m) at a0 and, unless it ends the list, the run
        [m, e) after it, and merges the two. */
    method MergeTwoRuns(a0: Elem, less: (Address, Address) -> bool, ghost s: seq<Address>, ghost a: nat, ghost m: nat, ghost e: nat)
      returns (last: bool, b1: Elem)
      requires Valid() && s == Items(full) && a < m <= e <= |s| && a0 == full[a + 1]
      requires m == RunEnd(s, less, a, |s|) && e == if m < |s| then RunEnd(s, less, m, |s|) else m
      modifies this, Repr()
      ensures Valid() && Repr() == old(Repr()) && |full| == |s| + 2
      ensures last == (m == |s|) && b1 == full[e + 1]
      ensures Items(full) == if last then s else Merged(s, less, a, m, e)
    {
      var a1b0 := FindEndOfRun(a0, tail, less, a, |s|);
      last := a1b0 == tail;
      b1 := tail;
      if !last {
        b1 := FindEndOfRun(a1b0, tail, less, m, |s|);
        InplaceMerge(a0, a1b0, b1, less, a, m, e);
      }
    }

    /** One pass of list_sort: adjacent runs are merged pairwise. */
    method MergePass(less: (Address, Address) -> bool) returns (outputRunCnt: nat)
      requires Valid()
      modifies this, Repr()
      ensures Valid() && Repr() == old(Repr()) && |full| == |old(full)|
      ensures Items(full) == Pass(Items(old(full)), less, 0).0
      ensures outputRunCnt == Pass(Items(old(full)), less, 0).1
    {
      ghost var s := Items(full);
      ghost var goal, n, a: nat := Pass(s, less, 0), |s|, 0;
      outputRunCnt := 0;
      var a0 := head.next;
      assert full[0].next == full[1];
      while a0 != tail
        invariant Valid() && Repr() == old(Repr()) && |full| == n + 2 && s == Items(full)
        invariant a <= n && a0 == full[a + 1]
        invariant goal.0 == Pass(s, less, a).0 && goal.1 == Pass(s, less, a).1 + outputRunCnt
        decreases n - a
      {
        ghost var m := RunEnd(s, less, a, |s|);
        ghost var e := if m < |s| then RunEnd(s, less, m, |s|) else m;
        PassNext(s, less, a, m);
        outputRunCnt := outputRunCnt + 1;
        var last;
        last, a0 := MergeTwoRuns(a0, less, s, a, m, e);
        if last {
          break;
        }
        s := Merged(s, less, a, m, e);
        a := e;
      }
    }

    /** list_sort: natural merge sort. The loop ends because each pass that outputs more than
        one run leaves fewer runs than it found. */
    method Sort(less: (Address, Address) -> bool)
      requires Valid() && StrictWeak(less)
      modifies this, Repr()
      ensures Valid() && Repr() == old(Repr()) && |full| == |old(full)|
      ensures Sorted(Items(full), less, 0, |full| - 2)
      ensures StablePermutation(Items(old(full)), Items(full), less)
    {
      ghost var goal := SortSpec.Sort(Items(full), less);
      var outputRunCnt := 2;
      while outputRunCnt > 1
        invariant Valid() && Repr() == old(Repr()) && |full| == |old(full)|
        invariant outputRunCnt > 1 ==> SortSpec.Sort(Items(full), less) == goal
        invariant outputRunCnt <= 1 ==> Items(full) == goal
        decreases outputRunCnt > 1, Descents(Items(full), less, 0, |full| - 2)
      {
        if Items(full) != [] {
          PassHalvesRuns(Items(full), less, 0);
        }
        outputRunCnt := MergePass(less);
      }
    }

    /** list_insert_ordered */
    method InsertOrdered(elem: Elem, less: (Address, Address) -> bool)
      requires Valid() && elem !in full
      modifies this, full, elem
      ensures Valid()
      ensures var p := InsertAt(Items(old(full)), elem.item, less, 0);
              p <= |old(Elems())| && Elems() == old(Elems())[..p] + [elem] + old(Elems())[p..]
    {
      var e := head.next;
      ghost var p: nat, s := 0, Items(full);
      assert full[0].next == full[1];
      while e != tail && !less(elem.item, e.item)
        invariant p <= |s| && e == full[p + 1]
        invariant InsertAt(s, elem.item, less, 0) == InsertAt(s, elem.item, less, p)
        decreases |s| - p
      {
        e := e.next;
        p := p + 1;
      }
      Insert(e, elem, p);
    }

    /** The list that list_unique appends to, if any, is another one. */
    ghost predicate Beside(duplicates: LinkedList?)
      reads this, duplicates, if duplicates != null then duplicates.Repr() else {}
    {
      duplicates != null ==> duplicates != this && duplicates.Valid() && Disjoint(duplicates.full, full)
    }

    /** The removing branch of list_unique: NEXT, which follows ELEM at position k, changes lists. */
    method MoveAfter(elem: Elem, next: Elem, duplicates: LinkedList?, ghost k: nat)
      requires Valid() && Beside(duplicates) && k + 1 < |full| - 2 && elem == full[k + 1] && next == full[k + 2]
      modifies this, Repr(), duplicates, if duplicates != null then duplicates.Repr() else {}
      ensures Valid() && Beside(duplicates) && Repr() <= old(Repr()) && |full| == |old(full)| - 1 && elem == full[k + 1]
      ensures Items(full) == Items(old(full))[..k + 1] + Items(old(full))[k + 2..]
      ensures duplicates != null ==> duplicates.Repr() <= old(duplicates.Repr()) + old(Repr())
      ensures duplicates != null ==> Items(duplicates.full) == old(Items(duplicates.full)) + [next.item]
    {
      ghost var f := full;
      var after := Remove(next, k + 1);
      forall x | 0 <= x < |full|
        ensures full[x] in f && full[x] != next
      {
        assert full[x] in Repr();
      }
      if duplicates != null {
        ghost var g := duplicates.full;
        assert next !in g;
        Append(duplicates, next, g);
      }
    }

    /** list_push_back onto the other list. */
    method Append(duplicates: LinkedList, next: Elem, ghost g: seq<Elem>)
      requires Valid() && duplicates != this && duplicates.Valid() && g == duplicates.full && next !in g && next !in full
      requires Disjoint(g, full)
      modifies duplicates, g, next
      ensures Valid() && duplicates.Valid() && Disjoint(duplicates.full, full)
              && duplicates.Repr() <= old(duplicates.Repr()) + {next}
      ensures Items(duplicates.full) == old(Items(duplicates.full)) + [next.item]
    {
      duplicates.PushBack(next);
      assert duplicates.full == g[..|g| - 1] + [next] + [duplicates.tail];
    }

    /** The loop of list_unique over a nonempty list. */
    method UniqueLoop(less: (Address, Address) -> bool, duplicates: LinkedList?, ghost s0: seq<Address>)
      requires Valid() && Beside(duplicates) && s0 == Items(full) && s0 != []
      modifies this, Repr(), duplicates, if duplicates != null then duplicates.Repr() else {}
      ensures Valid() && Beside(duplicates) && Items(full) == [s0[0]] + SortSpec.Unique(s0[0], s0[1..], less).0
      ensures duplicates != null ==>
                Items(duplicates.full) == old(Items(duplicates.full)) + SortSpec.Unique(s0[0], s0[1..], less).1
    {
      ghost var removed: seq<Address> := [];
      var elem := head.next;
      assert full[0].next == full[1];
      ghost var s, k: nat, repr := s0, 0, Repr();
      ghost var keeps, drops := [s0[0]] + SortSpec.Unique(s0[0], s0[1..], less).0, SortSpec.Unique(s0[0], s0[1..], less).1;
      SplitStart(s0, less);
      while elem.next != tail
        invariant Valid() && Beside(duplicates) && Repr() <= repr && k < |full| - 2 && elem == full[k + 1]
        invariant s == Items(full) && Splitting(s, less, k, removed, keeps, drops)
        invariant duplicates != null ==> duplicates.Repr() <= old(duplicates.Repr()) + repr
        invariant duplicates != null ==> Items(duplicates.full) == old(Items(duplicates.full)) + removed
        decreases |full| - k
      {
        var next := elem.next;
        assert next == full[k + 2];
        SplitNext(s, less, k, removed, keeps, drops);
        if !less(elem.item, next.item) && !less(next.item, elem.item) {
          MoveAfter(elem, next, duplicates, k);
          removed := removed + [next.item];
          s := s[..k + 1] + s[k + 2..];
        } else {
          elem := next;
          k := k + 1;
        }
      }
      assert elem.next == full[k + 2];
      SplitEnd(s, less, removed, keeps, drops);
    }

    /** list_unique; the removed elements are appended to DUPLICATES in order, unless that is null. */
    method Unique(less: (Address, Address) -> bool, duplicates: LinkedList?)
      requires Valid() && Beside(duplicates)
      modifies this, Repr(), duplicates, if duplicates != null then duplicates.Repr() else {}
      ensures Valid() && Beside(duplicates)
      ensures var s := Items(old(full));
              Items(full) == if s == [] then [] else [s[0]] + SortSpec.Unique(s[0], s[1..], less).0
      ensures var s := Items(old(full));
              duplicates != null ==>
                Items(duplicates.full) == old(Items(duplicates.full)) + (if s == [] then [] else SortSpec.Unique(s[0], s[1..], less).1)
    {
      var empty := Empty();
      if !empty {
        UniqueLoop(less, duplicates, Items(full));
      }
    }

    /** The loop of list_reverse: every inner element swaps its two links. */
    method SwapLinks(ghost f: seq<Elem>)
      requires Valid() && f == full
      modifies f[1..|f| - 1]
      ensures forall j {:trigger f[j].next} :: 0 < j < |f| - 1 ==> f[j].next == f[j - 1]
      ensures forall j {:trigger f[j].prev} :: 0 < j < |f| - 1 ==> f[j].prev == f[j + 1]
    {
      var e := head.next;
      ghost var k: nat, n := 1, |f|;
      assert f[0].next == f[1];
      while e != tail
        invariant 1 <= k < n && e == f[k]
        invariant forall j {:trigger f[j].next} :: 0 < j < n - 1 ==> f[j].next == if j < k then f[j - 1] else f[j + 1]
        invariant forall j {:trigger f[j].prev} :: 0 < j < n - 1 ==> f[j].prev == if j < k then f[j + 1] else f[j - 1]
        decreases n - k
      {
        assert f[1..n - 1][k - 1] == e;
        e.prev, e.next := e.next, e.prev;
        e := e.prev;
        k := k + 1;
      }
    }

    /** list_reverse: the links of every element are swapped where it stands. */
    method Reverse()
      requires Valid()
      modifies this, Repr()
      ensures Valid() && Elems() == Reversed(old(Elems())) && Repr() == old(Repr())
    {
      ghost var f, n := full, |full|;
      var empty := Empty();
      if !empty {
        SwapAll(f);
        MirroredLinks(f, Mirrored(f));
        MirroredSame(f);
        full := Mirrored(f);
      }
    }

    /** Reversing a list is its own inverse. */
    method ReverseTwice()
      requires Valid()
      modifies this, Repr()
      ensures Valid() && Elems() == old(Elems()) && Repr() == old(Repr())
    {
      Reverse();
      Reverse();
    }

    /** The loop and what follows it, on a list that is not empty. */
    method SwapAll(ghost f: seq<Elem>)
      requires Valid() && f == full && |f| > 2
      modifies f
      ensures f[0].prev == null && f[|f| - 1].next == null
      ensures f[0].next == f[|f| - 2] && f[|f| - 1].prev == f[1]
      ensures forall j {:trigger f[j].next} :: 1 < j < |f| - 1 ==> f[j].next == f[j - 1]
      ensures forall j {:trigger f[j].prev} :: 0 < j < |f| - 2 ==> f[j].prev == f[j + 1]
      ensures f[1].next == f[|f| - 1] && f[|f| - 2].prev == f[0]
    {
      SwapLinks(f);
      SwapEnds(f);
    }

    /** The end of list_reverse: the sentinels swap their neighbours, and these their links to the sentinels. */
    method SwapEnds(ghost f: seq<Elem>)
      requires |f| > 2 && Distinct(f) && f[0] == head && f[|f| - 1] == tail
      requires head.next == f[1] && tail.prev == f[|f| - 2] && f[1].next == head && f[|f| - 2].prev == tail
      modifies f
      ensures head.next == f[|f| - 2] && tail.prev == f[1] && f[|f| - 2].prev == head && f[1].next == tail
      ensures head.prev == old(head.prev) && tail.next == old(tail.next)
      ensures forall j :: 0 < j < |f| - 1 ==>
                (j != 1 ==> f[j].next == old(f[j].next)) && (j != |f| - 2 ==> f[j].prev == old(f[j].prev))
    {
      head.next, tail.prev := tail.prev, head.next;
      head.next.prev, tail.prev.next := tail.prev.next, head.next.prev;
    }
  }

  /** The chain with its inner elements in reverse order. */
  ghost function Mirrored(f: seq<Elem>): (g: seq<Elem>)
    ensures |g| == |f|
  {
    seq(|f|, j requires 0 <= j < |f| => if 0 < j < |f| - 1 then f[|f| - 1 - j] else f[j])
  }

  /** Reading the swapped links along the mirrored chain. */
  lemma MirroredLinks(f: seq<Elem>, g: seq<Elem>)
    requires |f| > 2 && g == Mirrored(f) && Distinct(f)
    requires f[0].prev == null && f[|f| - 1].next == null
    requires f[0].next == f[|f| - 2] && f[|f| - 1].prev == f[1]
    requires forall j {:trigger f[j].next} :: 1 < j < |f| - 1 ==> f[j].next == f[j - 1]
    requires forall j {:trigger f[j].prev} :: 0 < j < |f| - 2 ==> f[j].prev == f[j + 1]
    requires f[1].next == f[|f| - 1] && f[|f| - 2].prev == f[0]
    ensures Linked(g)
  {
    var n := |f|;
    forall j | 0 <= j < n - 1
      ensures g[j].next == g[j + 1]
    {
      assert 0 < j < n - 2 ==> f[n - 1 - j].next == f[n - 2 - j];
    }
    forall j | 0 < j < n
      ensures g[j].prev == g[j - 1]
    {
      assert 1 < j < n - 1 ==> f[n - 1 - j].prev == f[n - j];
    }
    MirroredDistinct(f, g);
  }

  lemma MirroredSame(f: seq<Elem>)
    ensures (set x | x in Mirrored(f)) == (set x | x in f)
  {
    var n := |f|;
    forall x
      ensures x in Mirrored(f) <==> x in f
    {
      if x in f {
        var j :| 0 <= j < n && f[j] == x;
        assert Mirrored(f)[if 0 < j < n - 1 then n - 1 - j else j] == x;
      }
    }
  }

  lemma MirroredDistinct(f: seq<Elem>, g: seq<Elem>)
    requires Distinct(f) && g == Mirrored(f)
    ensures Distinct(g)
  {
  }
}
