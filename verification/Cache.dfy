/** The write-back buffer cache of cache.c, for any number of slots. */
module Cache {
  import opened Blocks

  /** struct buffer_cache_entry_t */
  datatype Entry = Entry(occupied: bool, sector: nat, buffer: Block, dirty: bool, access: bool)

  /** The static cache, the device behind it and the clock hand. */
  datatype State = State(cache: seq<Entry>, disk: seq<Block>, hand: nat)

  // ----- Specification -----

  /** The first occupied slot at or after i that holds sector s, or |cache|. */
  function SlotFrom(cache: seq<Entry>, s: nat, i: nat): (r: nat)
    requires i <= |cache|
    ensures i <= r <= |cache|
    ensures r < |cache| ==> cache[r].occupied && cache[r].sector == s
    ensures forall j :: i <= j < r ==> !(cache[j].occupied && cache[j].sector == s)
    decreases |cache| - i
  {
    if i == |cache| || (cache[i].occupied && cache[i].sector == s) then i else SlotFrom(cache, s, i + 1)
  }

  function Slot(cache: seq<Entry>, s: nat): nat { SlotFrom(cache, s, 0) }

  /** Occupied slots hold distinct sectors of the device and clean ones agree with it. */
  ghost predicate Ok(st: State) {
    && 0 < |st.cache|
    && st.hand < |st.cache|
    && (forall i :: 0 <= i < |st.cache| && st.cache[i].occupied ==> st.cache[i].sector < |st.disk|)
    && (forall i :: 0 <= i < |st.cache| && st.cache[i].occupied && !st.cache[i].dirty ==>
          st.cache[i].buffer == st.disk[st.cache[i].sector])
    && (forall i, j :: 0 <= i < j < |st.cache| && st.cache[i].occupied && st.cache[j].occupied ==>
          st.cache[i].sector != st.cache[j].sector)
  }

  /** What a client of the cache sees in sector s. */
  function Value(st: State, s: nat): Block
    requires s < |st.disk|
  {
    var i := Slot(st.cache, s);
    if i < |st.cache| then st.cache[i].buffer else st.disk[s]
  }

  /** The flat disk that the cache presents. */
  function View(st: State): (v: seq<Block>)
    ensures |v| == |st.disk|
  {
    seq(|st.disk|, s requires 0 <= s < |st.disk| => Value(st, s))
  }

  function Wrap(hand: nat, k: nat, n: nat): nat
    requires hand < n && k <= n
  {
    if hand + k < n then hand + k else hand + k - n
  }

  /** The clock stops at a slot that is free or has lost its second chance. */
  predicate Stops(e: Entry) { !e.occupied || !e.access }

  /** How many slots the clock passes over when it starts at the hand with k slots behind it. */
  function PassedFrom(cache: seq<Entry>, hand: nat, k: nat): (r: nat)
    requires hand < |cache| && k <= |cache|
    ensures k <= r <= |cache|
    ensures forall j :: k <= j < r ==> !Stops(cache[Wrap(hand, j, |cache|)])
    ensures r < |cache| ==> Stops(cache[Wrap(hand, r, |cache|)])
    decreases |cache| - k
  {
    if k == |cache| || Stops(cache[Wrap(hand, k, |cache|)]) then k else PassedFrom(cache, hand, k + 1)
  }

  function Passed(cache: seq<Entry>, hand: nat): nat
    requires hand < |cache|
  {
    PassedFrom(cache, hand, 0)
  }

  /** Slot i is one of the k slots that the clock passed over from the hand. */
  predicate Behind(hand: nat, k: nat, n: nat, i: nat) {
    hand <= i < hand + k || i + n < hand + k
  }

  /** The k slots from the hand lose their reference bit. */
  function Cleared(cache: seq<Entry>, hand: nat, k: nat): (r: seq<Entry>)
    ensures |r| == |cache|
  {
    seq(|cache|, i requires 0 <= i < |cache| =>
      if Behind(hand, k, |cache|, i) then cache[i].(access := false) else cache[i])
  }

  /** A dirty slot is written back. */
  function Flushed(st: State, i: nat): State
    requires i < |st.cache| && st.cache[i].sector < |st.disk|
  {
    var e := st.cache[i];
    if e.dirty then st.(disk := st.disk[e.sector := e.buffer], cache := st.cache[i := e.(dirty := false)]) else st
  }

  /** buffer_cache_evict: the new state; the freed slot is the one under the hand. */
  function Evicted(st: State): State
    requires Ok(st)
  {
    var k := Passed(st.cache, st.hand);
    var i := Wrap(st.hand, k, |st.cache|);
    var st1 := st.(cache := Cleared(st.cache, st.hand, k), hand := i);
    if !st.cache[i].occupied then st1
    else
      var st2 := Flushed(st1, i);
      st2.(cache := st2.cache[i := st2.cache[i].(occupied := false)])
  }

  /** The slot under the hand filled from the device. */
  function Filled(st: State, s: nat): State
    requires st.hand < |st.cache| && s < |st.disk|
  {
    st.(cache := st.cache[st.hand := st.cache[st.hand].(occupied := true, sector := s, dirty := false, buffer := st.disk[s])])
  }

  /** The state in which sector s has a slot. */
  function Loaded(st: State, s: nat): State
    requires Ok(st) && s < |st.disk|
  {
    if Slot(st.cache, s) < |st.cache| then st else Filled(Evicted(st), s)
  }

  function AfterRead(st: State, s: nat): State
    requires Ok(st) && s < |st.disk|
  {
    var st1 := Loaded(st, s);
    var i := Slot(st1.cache, s);
    if i < |st1.cache| then st1.(cache := st1.cache[i := st1.cache[i].(access := true)]) else st1
  }

  function AfterWrite(st: State, s: nat, b: Block): State
    requires Ok(st) && s < |st.disk|
  {
    var st1 := Loaded(st, s);
    var i := Slot(st1.cache, s);
    if i < |st1.cache| then st1.(cache := st1.cache[i := st1.cache[i].(access := true, dirty := true, buffer := b)]) else st1
  }

  /** The first n slots flushed. */
  function FlushedTo(st: State, n: nat): (r: State)
    requires Ok(st) && n <= |st.cache|
    ensures |r.cache| == |st.cache| && Ok(r) && View(r) == View(st)
    ensures forall i :: 0 <= i < n && r.cache[i].occupied ==> !r.cache[i].dirty
  {
    if n == 0 then st
    else
      var st1 := FlushedTo(st, n - 1);
      if st1.cache[n - 1].occupied then
        FlushKeepsView(st1, n - 1);
        Flushed(st1, n - 1)
      else st1
  }

  lemma ClearNext(cache: seq<Entry>, hand: nat, k: nat)
    requires hand < |cache| && k < |cache|
    ensures var i := Wrap(hand, k, |cache|);
            Cleared(cache, hand, k)[i] == cache[i]
            && Cleared(cache, hand, k + 1) == Cleared(cache, hand, k)[i := cache[i].(access := false)]
  {
  }

  lemma NextHand(hand: nat, k: nat, n: nat)
    requires hand < n && k < n
    ensures (Wrap(hand, k, n) + 1) % n == Wrap(hand, k + 1, n)
  {
    if Wrap(hand, k, n) + 1 == n {
      assert n % n == 0;
    }
  }

  // ----- Every step keeps the invariant and the view -----

  lemma SlotIs(st: State, i: nat)
    requires Ok(st) && i < |st.cache| && st.cache[i].occupied
    ensures Slot(st.cache, st.cache[i].sector) == i
  {
    assert Slot(st.cache, st.cache[i].sector) <= i;
  }

  lemma ValueIs(st: State, s: nat)
    requires Ok(st) && s < |st.disk|
    ensures forall i :: 0 <= i < |st.cache| && st.cache[i].occupied && st.cache[i].sector == s ==>
              Value(st, s) == st.cache[i].buffer
    ensures (forall i :: 0 <= i < |st.cache| && st.cache[i].occupied ==> st.cache[i].sector != s) ==> Value(st, s) == st.disk[s]
  {
    forall i | 0 <= i < |st.cache| && st.cache[i].occupied && st.cache[i].sector == s
      ensures Value(st, s) == st.cache[i].buffer
    {
      SlotIs(st, i);
    }
  }

  /** Two states that agree slot by slot, up to reference bits, show the same disk. */
  lemma SameView(a: State, b: State)
    requires Ok(a) && Ok(b) && a.disk == b.disk && |a.cache| == |b.cache|
    requires forall i :: 0 <= i < |a.cache| ==> a.cache[i].(access := false) == b.cache[i].(access := false)
    ensures View(a) == View(b)
  {
    forall s | 0 <= s < |a.disk|
      ensures Value(a, s) == Value(b, s)
    {
      var i := Slot(a.cache, s);
      if i < |a.cache| {
        assert a.cache[i].(access := false) == b.cache[i].(access := false);
        ValueIs(b, s);
      } else {
        forall j | 0 <= j < |b.cache| && b.cache[j].occupied
          ensures b.cache[j].sector != s
        {
          assert a.cache[j].(access := false) == b.cache[j].(access := false);
        }
        ValueIs(b, s);
      }
    }
  }

  lemma FlushKeepsView(st: State, i: nat)
    requires Ok(st) && i < |st.cache| && st.cache[i].occupied
    ensures Ok(Flushed(st, i)) && View(Flushed(st, i)) == View(st)
    ensures !Flushed(st, i).cache[i].dirty
  {
    var r := Flushed(st, i);
    forall s | 0 <= s < |st.disk|
      ensures Value(r, s) == Value(st, s)
    {
      ValueIs(st, s);
      ValueIs(r, s);
      var k := Slot(st.cache, s);
      if k < |st.cache| {
        assert r.cache[k].occupied && r.cache[k].sector == s;
      }
    }
  }

  /** Giving up a clean slot does not change the view. */
  lemma DropKeepsView(st: State, i: nat)
    requires Ok(st) && i < |st.cache| && st.cache[i].occupied && !st.cache[i].dirty
    ensures var r := st.(cache := st.cache[i := st.cache[i].(occupied := false)]);
            Ok(r) && View(r) == View(st)
  {
    var r := st.(cache := st.cache[i := st.cache[i].(occupied := false)]);
    forall s | 0 <= s < |st.disk|
      ensures Value(r, s) == Value(st, s)
    {
      ValueIs(st, s);
      ValueIs(r, s);
      var k := Slot(st.cache, s);
      if k < |st.cache| && k != i {
        assert r.cache[k].occupied && r.cache[k].sector == s;
      } else if k == i {
        assert forall j :: 0 <= j < |r.cache| && r.cache[j].occupied ==> r.cache[j].sector != s;
      }
    }
  }

  lemma EvictKeepsView(st: State)
    requires Ok(st)
    ensures Ok(Evicted(st)) && View(Evicted(st)) == View(st)
    ensures |Evicted(st).cache| == |st.cache| && !Evicted(st).cache[Evicted(st).hand].occupied
    ensures forall i :: 0 <= i < |st.cache| && Evicted(st).cache[i].occupied ==>
              st.cache[i].occupied && Evicted(st).cache[i].sector == st.cache[i].sector
  {
    var k := Passed(st.cache, st.hand);
    var i := Wrap(st.hand, k, |st.cache|);
    var st1 := st.(cache := Cleared(st.cache, st.hand, k), hand := i);
    assert Ok(st1);
    SameView(st, st1);
    if st.cache[i].occupied {
      FlushKeepsView(st1, i);
      DropKeepsView(Flushed(st1, i), i);
    }
  }

  lemma FillKeepsView(st: State, s: nat)
    requires Ok(st) && s < |st.disk| && !st.cache[st.hand].occupied
    requires forall i :: 0 <= i < |st.cache| && st.cache[i].occupied ==> st.cache[i].sector != s
    ensures Ok(Filled(st, s)) && View(Filled(st, s)) == View(st)
    ensures Slot(Filled(st, s).cache, s) == st.hand
  {
    var r := Filled(st, s);
    SlotIs(r, st.hand);
    forall t | 0 <= t < |st.disk|
      ensures Value(r, t) == Value(st, t)
    {
      ValueIs(st, t);
      ValueIs(r, t);
      var k := Slot(st.cache, t);
      if k < |st.cache| {
        assert r.cache[k].occupied && r.cache[k].sector == t;
      }
    }
  }

  lemma LoadKeepsView(st: State, s: nat)
    requires Ok(st) && s < |st.disk|
    ensures Ok(Loaded(st, s)) && View(Loaded(st, s)) == View(st)
    ensures |Loaded(st, s).cache| == |st.cache| && Slot(Loaded(st, s).cache, s) < |st.cache|
  {
    if Slot(st.cache, s) == |st.cache| {
      EvictKeepsView(st);
      FillKeepsView(Evicted(st), s);
    }
  }

  /** A read leaves the flat disk alone. */
  lemma ReadKeepsView(st: State, s: nat)
    requires Ok(st) && s < |st.disk|
    ensures Ok(AfterRead(st, s)) && View(AfterRead(st, s)) == View(st)
  {
    LoadKeepsView(st, s);
    SameView(Loaded(st, s), AfterRead(st, s));
  }

  /** Overwriting the buffer of an occupied slot changes exactly its sector of the view. */
  lemma OverwriteUpdatesView(st: State, r: State, i: nat, b: Block)
    requires Ok(st) && i < |st.cache| && st.cache[i].occupied
    requires r == st.(cache := st.cache[i := st.cache[i].(access := true, dirty := true, buffer := b)])
    ensures Ok(r) && View(r) == View(st)[st.cache[i].sector := b]
  {
    forall t | 0 <= t < |st.disk|
      ensures Value(r, t) == if t == st.cache[i].sector then b else Value(st, t)
    {
      var k := Slot(st.cache, t);
      if k < |st.cache| {
        SlotIs(st, i);
        assert r.cache[k].occupied && r.cache[k].sector == t;
        SlotIs(r, k);
      } else {
        assert Slot(r.cache, t) == |r.cache|;
      }
    }
  }

  /** A write changes exactly one sector of the flat disk. */
  lemma WriteUpdatesView(st: State, s: nat, b: Block)
    requires Ok(st) && s < |st.disk|
    ensures Ok(AfterWrite(st, s, b)) && View(AfterWrite(st, s, b)) == View(st)[s := b]
  {
    LoadKeepsView(st, s);
    var st1 := Loaded(st, s);
    OverwriteUpdatesView(st1, AfterWrite(st, s, b), Slot(st1.cache, s), b);
  }

  /** After every slot is flushed the device itself is the flat disk (buffer_cache_close). */
  lemma {:induction false} CloseWritesBack(st: State)
    requires Ok(st)
    ensures FlushedTo(st, |st.cache|).disk == View(st)
  {
    var r := FlushedTo(st, |st.cache|);
    forall s | 0 <= s < |r.disk|
      ensures r.disk[s] == View(r)[s]
    {
      ValueIs(r, s);
    }
  }

  // ----- Whole runs -----

  datatype Op = Read(s: nat) | Write(s: nat, b: Block)

  ghost predicate InRange(ops: seq<Op>, n: nat) {
    forall k :: 0 <= k < |ops| ==> ops[k].s < n
  }

  /** The state after a run, driven through the cache. */
  function Run(st: State, ops: seq<Op>): (r: State)
    requires Ok(st) && InRange(ops, |st.disk|)
    ensures Ok(r) && |r.disk| == |st.disk|
  {
    if ops == [] then st
    else
      var st1 := Run(st, ops[..|ops| - 1]);
      match ops[|ops| - 1]
      case Read(s) => ReadKeepsView(st1, s); AfterRead(st1, s)
      case Write(s, b) => WriteUpdatesView(st1, s, b); AfterWrite(st1, s, b)
  }

  /** The last value written to sector s by a run, or the initial one. */
  function LastWritten(init: seq<Block>, ops: seq<Op>, s: nat): Block
    requires s < |init|
  {
    if ops == [] then init[s]
    else
      var last := ops[|ops| - 1];
      if last.Write? && last.s == s then last.b else LastWritten(init, ops[..|ops| - 1], s)
  }

  /** Whatever was evicted on the way, a read at the end of any run returns the last value
      written to its sector, and closing the cache leaves exactly those values on the device. */
  lemma {:induction false} Transparent(st: State, ops: seq<Op>, s: nat)
    requires Ok(st) && InRange(ops, |st.disk|) && s < |st.disk|
    ensures Value(Run(st, ops), s) == LastWritten(View(st), ops, s)
    ensures FlushedTo(Run(st, ops), |Run(st, ops).cache|).disk[s] == LastWritten(View(st), ops, s)
  {
    if ops != [] {
      var before := ops[..|ops| - 1];
      Transparent(st, before, s);
      var st1, st2 := Run(st, before), Run(st, ops);
      match ops[|ops| - 1] {
        case Read(t) => ReadKeepsView(st1, t);
        case Write(t, b) => WriteUpdatesView(st1, t, b);
      }
      assert View(st2)[s] == Value(st2, s) && View(st1)[s] == Value(st1, s);
    }
    CloseWritesBack(Run(st, ops));
  }

  // ----- The clock -----

  /** Eviction passes over occupied and referenced slots only, which lose their reference bit, and ends at
      the first other slot or after a full turn; the other slots' bits are as before. */
  lemma EvictTurnsClock(st: State)
    requires Ok(st)
    ensures var r, n, k := Evicted(st), |st.cache|, Passed(st.cache, st.hand);
            && |r.cache| == n && k <= n && r.hand == (if st.hand + k < n then st.hand + k else st.hand + k - n)
            && (forall d :: 0 <= d < k ==> var e := st.cache[Wrap(st.hand, d, n)]; e.occupied && e.access)
            && (k < n ==> var e := st.cache[Wrap(st.hand, k, n)]; !e.occupied || !e.access)
            && (forall d :: 0 <= d < n ==>
                  (r.cache[Wrap(st.hand, d, n)].access <==> d >= k && st.cache[Wrap(st.hand, d, n)].access))
  {
  }

  /** From ST to R sector s was accessed: it has a slot, the one under the hand if it had none, which is
      referenced, and the other slots are as eviction left them, if there was one. */
  ghost predicate Accessed(st: State, r: State, s: nat)
    requires Ok(st)
  {
    AccessedBody(st, r, s) == true
  }

  ghost predicate AccessedBody(st: State, r: State, s: nat)
    requires Ok(st)
  {
    var i, hit := Slot(r.cache, s), exists j :: 0 <= j < |st.cache| && st.cache[j].occupied && st.cache[j].sector == s;
    var before := if hit then st else Evicted(st);
    && |r.cache| == |before.cache| && r.disk == before.disk && r.hand == before.hand
    && i < |r.cache| && r.cache[i].access && (!hit ==> i == r.hand)
    && forall j :: 0 <= j < |r.cache| && j != i ==> r.cache[j] == before.cache[j]
  }

  lemma ReadAccesses(st: State, s: nat)
    requires Ok(st) && s < |st.disk|
    ensures Accessed(st, AfterRead(st, s), s)
  {
    LoadAccesses(st, s);
    ReadKeepsView(st, s);
    SlotIs(AfterRead(st, s), Slot(Loaded(st, s).cache, s));
  }

  lemma WriteAccesses(st: State, s: nat, b: Block)
    requires Ok(st) && s < |st.disk|
    ensures Accessed(st, AfterWrite(st, s, b), s)
  {
    LoadAccesses(st, s);
    WriteUpdatesView(st, s, b);
    SlotIs(AfterWrite(st, s, b), Slot(Loaded(st, s).cache, s));
  }

  /** Loading does the same up to the reference bit. */
  lemma LoadAccesses(st: State, s: nat)
    requires Ok(st) && s < |st.disk|
    ensures var i, hit := Slot(Loaded(st, s).cache, s), exists j :: 0 <= j < |st.cache| && st.cache[j].occupied && st.cache[j].sector == s;
            var before := if hit then st else Evicted(st);
            && |Loaded(st, s).cache| == |before.cache| && i < |st.cache|
            && Loaded(st, s).disk == before.disk && Loaded(st, s).hand == before.hand
            && (!hit ==> i == before.hand) && (hit ==> Loaded(st, s) == st)
            && forall j :: 0 <= j < |before.cache| && j != i ==> Loaded(st, s).cache[j] == before.cache[j]
  {
    LoadKeepsView(st, s);
    if Slot(st.cache, s) == |st.cache| {
      EvictKeepsView(st);
      FillKeepsView(Evicted(st), s);
    }
  }

  /** A referenced sector is not the next victim while some slot is free or not referenced. */
  lemma ReferencedStays(st: State, s: nat, j: nat)
    requires Ok(st) && Slot(st.cache, s) < |st.cache| && st.cache[Slot(st.cache, s)].access
    requires j < |st.cache| && (!st.cache[j].occupied || !st.cache[j].access)
    ensures Evicted(st).hand != Slot(st.cache, s) && Slot(Evicted(st).cache, s) == Slot(st.cache, s)
  {
    var n, i := |st.cache|, Slot(st.cache, s);
    var d := if j >= st.hand then j - st.hand else j + n - st.hand;
    assert Wrap(st.hand, d, n) == j;
    EvictKeepsView(st);
    SlotIs(Evicted(st), i);
  }

  /** After any run the sector accessed last is not the next victim while another slot can be one. */
  lemma {:induction false} LastAccessStays(st: State, ops: seq<Op>, j: nat)
    requires Ok(st) && InRange(ops, |st.disk|) && ops != []
    requires var r := Run(st, ops); j < |r.cache| && (!r.cache[j].occupied || !r.cache[j].access)
    ensures var r, s := Run(st, ops), ops[|ops| - 1].s;
            Slot(r.cache, s) < |r.cache| && Evicted(r).hand != Slot(r.cache, s) && Slot(Evicted(r).cache, s) == Slot(r.cache, s)
  {
    LastAccess(st, ops);
    ReferencedStays(Run(st, ops), ops[|ops| - 1].s, j);
  }

  // ----- Filling the cache -----

  /** The first m slots are occupied, and the hand is at the last of them, which is referenced. */
  ghost predicate Filling(st: State, m: nat) {
    FillingBody(st, m) == true
  }

  ghost predicate FillingBody(st: State, m: nat) {
    && Ok(st) && m <= |st.cache|
    && (forall j :: 0 <= j < |st.cache| ==> (st.cache[j].occupied <==> j < m))
    && (if m == 0 then st.hand == 0 else st.hand == m - 1 && st.cache[m - 1].access)
  }

  /** Then the victim is the next slot, which is free. */
  lemma FillingEvicts(st: State, m: nat)
    requires Filling(st, m) && m < |st.cache|
    ensures Evicted(st).hand == m && Evicted(st).disk == st.disk && |Evicted(st).cache| == |st.cache|
    ensures forall j :: 0 <= j < |st.cache| ==> Evicted(st).cache[j].(access := false) == st.cache[j].(access := false)
  {
    if m > 0 {
      assert Wrap(st.hand, 0, |st.cache|) == m - 1 && Wrap(st.hand, 1, |st.cache|) == m;
      assert Passed(st.cache, st.hand) == PassedFrom(st.cache, st.hand, 1) == 1;
    } else {
      assert Wrap(st.hand, 0, |st.cache|) == 0;
    }
  }

  /** The sectors that have a slot are SECTORS. */
  ghost predicate Holding(st: State, sectors: set<nat>) {
    HoldingBody(st, sectors) == true
  }

  ghost predicate HoldingBody(st: State, sectors: set<nat>) {
    forall t: nat :: t in sectors <==> Slot(st.cache, t) < |st.cache|
  }

  /** Two caches that hold the same but for slot i, which holds sector s in the second. */
  lemma HoldsAlso(a: State, b: State, i: nat, s: nat, sectors: set<nat>)
    requires Ok(a) && Ok(b) && |a.cache| == |b.cache| && i < |b.cache| && b.cache[i].occupied && b.cache[i].sector == s
    requires forall j :: 0 <= j < |a.cache| && j != i ==> a.cache[j].(access := false) == b.cache[j].(access := false)
    requires a.cache[i].occupied ==> a.cache[i].sector == s
    requires Holding(a, sectors)
    ensures Holding(b, sectors + {s})
  {
    forall t: nat
      ensures t in sectors + {s} <==> Slot(b.cache, t) < |b.cache|
    {
      var j, k := Slot(a.cache, t), Slot(b.cache, t);
      if k < |b.cache| && k != i {
        assert a.cache[k].(access := false) == b.cache[k].(access := false);
      }
      if j < |a.cache| && j != i {
        assert a.cache[j].(access := false) == b.cache[j].(access := false);
      }
    }
  }

  /** An access to a sector that has a slot leaves the slots in use as they are; any other takes the next
      slot, and nothing is written to the device. */
  lemma FillingAccess(st: State, r: State, m: nat, sectors: set<nat>, s: nat)
    requires Filling(st, m) && Holding(st, sectors) && s < |st.disk| && (s in sectors || m < |st.cache|)
    requires Ok(r) && Accessed(st, r, s)
    ensures Filling(r, if s in sectors then m else m + 1) && Holding(r, sectors + {s})
    ensures r.disk == st.disk && |r.cache| == |st.cache|
  {
    if s in sectors {
      HitStays(st, r, s);
    } else {
      FillingEvicts(st, m);
    }
    assert FillingBody(r, if s in sectors then m else m + 1);
    HoldsAlso(st, r, Slot(r.cache, s), s, sectors);
  }

  /** A sector that has a slot keeps it. */
  lemma HitStays(st: State, r: State, s: nat)
    requires Ok(st) && Ok(r) && Accessed(st, r, s) && Slot(st.cache, s) < |st.cache|
    ensures Slot(r.cache, s) == Slot(st.cache, s)
  {
    var i, j := Slot(r.cache, s), Slot(st.cache, s);
    var e, f := st.cache[j], r.cache[j];
    assert i == j || e == f;
  }

  /** The sectors that a run accesses. */
  ghost function SectorsIn(ops: seq<Op>): set<nat> { set k | 0 <= k < |ops| :: ops[k].s }

  /** From ST to R the slots filled up with SECTORS, and nothing was written to the device. */
  ghost predicate FilledUp(st: State, r: State, sectors: set<nat>) {
    (Filling(r, |sectors|) && Holding(r, sectors) && |r.cache| == |st.cache| && r.disk == st.disk) == true
  }

  lemma FilledUpMore(st: State, st1: State, r: State, sectors: set<nat>, s: nat)
    requires FilledUp(st, st1, sectors) && s < |st.disk| && (s in sectors || |sectors| < |st.cache|)
    requires Ok(st1) && Ok(r) && Accessed(st1, r, s)
    ensures FilledUp(st, r, sectors + {s})
  {
    FillingAccess(st1, r, |sectors|, sectors, s);
    OneMoreIn(sectors, s);
  }

  lemma OneMoreIn(sectors: set<nat>, s: nat)
    ensures |sectors + {s}| == if s in sectors then |sectors| else |sectors| + 1
  {
    if s in sectors {
      assert sectors + {s} == sectors;
    }
  }

  lemma FilledUpNot(st: State)
    requires Filling(st, 0)
    ensures FilledUp(st, st, {})
  {
    assert HoldingBody(st, {});
  }

  /** A run that accesses no more sectors than there are slots evicts nothing: from an empty cache on, all
      of them are in the cache in the end, and the device has not been written. */
  lemma {:induction false} NothingIsEvicted(st: State, ops: seq<Op>)
    requires Filling(st, 0) && Ok(st) && InRange(ops, |st.disk|) && |SectorsIn(ops)| <= |st.cache|
    ensures FilledUp(st, Run(st, ops), SectorsIn(ops))
  {
    if ops == [] {
      FilledUpNot(st);
      assert SectorsIn(ops) == {};
    } else {
      var before := ops[..|ops| - 1];
      OneMoreSector(ops);
      NothingIsEvicted(st, before);
      LastAccess(st, ops);
      OneMoreIn(SectorsIn(before), ops[|ops| - 1].s);
      FilledUpMore(st, Run(st, before), Run(st, ops), SectorsIn(before), ops[|ops| - 1].s);
    }
  }

  lemma {:induction false} LastAccess(st: State, ops: seq<Op>)
    requires Ok(st) && InRange(ops, |st.disk|) && ops != []
    ensures Accessed(Run(st, ops[..|ops| - 1]), Run(st, ops), ops[|ops| - 1].s)
  {
    var st1 := Run(st, ops[..|ops| - 1]);
    match ops[|ops| - 1] {
      case Read(s) => ReadAccesses(st1, s);
      case Write(s, b) => WriteAccesses(st1, s, b);
    }
  }

  lemma OneMoreSector(ops: seq<Op>)
    requires ops != []
    ensures var before, s := ops[..|ops| - 1], ops[|ops| - 1].s;
            SectorsIn(ops) == SectorsIn(before) + {s} && |SectorsIn(before)| <= |SectorsIn(ops)|
  {
    var before, s := ops[..|ops| - 1], ops[|ops| - 1].s;
    forall t
      ensures t in SectorsIn(ops) <==> t in SectorsIn(before) + {s}
    {
      if t in SectorsIn(ops) {
        var k :| 0 <= k < |ops| && ops[k].s == t;
        assert k < |before| ==> before[k] == ops[k];
      }
      if t in SectorsIn(before) {
        var k :| 0 <= k < |before| && before[k].s == t;
        assert ops[k] == before[k];
      }
      assert ops[|ops| - 1].s == s;
    }
    if s in SectorsIn(before) {
      assert SectorsIn(ops) == SectorsIn(before);
    }
  }

  // ----- Implementation -----

  class BufferCache {
    const cache: array<Entry>
    const device: array<Block>
    var clock: nat

    ghost function Abs(): State
      reads this, cache, device
    {
      State(cache[..], device[..], clock)
    }

    ghost predicate Valid()
      reads this, cache, device
    {
      Ok(Abs())
    }

    /** The flat disk seen through the cache. */
    ghost function Disk(): (v: seq<Block>)
      reads this, cache, device
      ensures |v| == device.Length
    {
      View(Abs())
    }

    /** buffer_cache_init over a device; the slots start out unoccupied. */
    constructor (slots: nat, fsDevice: array<Block>)
      requires slots > 0
      ensures Valid() && fresh(cache) && device == fsDevice && cache.Length == slots
      ensures Disk() == fsDevice[..] && Filling(Abs(), 0)
    {
      cache := new Entry[slots](_ => Entry(false, 0, Zeros(), false, false));
      device := fsDevice;
      clock := 0;
      new;
      forall s | 0 <= s < device.Length
        ensures Disk()[s] == device[s]
      {
        ValueIs(Abs(), s);
      }
    }

    method Flush(i: nat)
      requires i < cache.Length && cache[i].occupied && cache[i].sector < device.Length
      modifies cache, device
      ensures Abs() == Flushed(old(Abs()), i)
    {
      var e := cache[i];
      if e.dirty {
        device[e.sector] := e.buffer;
        cache[i] := e.(dirty := false);
      }
    }

    method Close()
      requires Valid()
      modifies cache, device
      ensures Abs() == FlushedTo(old(Abs()), cache.Length)
      ensures Valid() && Disk() == old(Disk()) && device[..] == Disk()
    {
      for i := 0 to cache.Length
        invariant Abs() == FlushedTo(old(Abs()), i)
      {
        if cache[i].occupied {
          Flush(i);
        }
      }
      CloseWritesBack(old(Abs()));
    }

    method Lookup(s: nat) returns (i: nat)
      ensures i == Slot(cache[..], s)
    {
      i := 0;
      while i < cache.Length
        invariant i <= cache.Length && Slot(cache[..], s) == SlotFrom(cache[..], s, i)
      {
        if cache[i].occupied && cache[i].sector == s {
          return;
        }
        i := i + 1;
      }
    }

    /** Moves the hand to the victim; every slot it passes loses its reference bit. */
    method Advance()
      requires Valid()
      modifies this, cache
      ensures var k := Passed(old(cache[..]), old(clock));
              clock == Wrap(old(clock), k, cache.Length) && cache[..] == Cleared(old(cache[..]), old(clock), k)
    {
      ghost var k := 0;
      ghost var was, hand := cache[..], clock;
      while cache[clock].occupied && cache[clock].access
        invariant k <= cache.Length && clock == Wrap(hand, k, cache.Length)
        invariant Passed(was, hand) == PassedFrom(was, hand, k)
        invariant cache[..] == Cleared(was, hand, k)
        decreases cache.Length - k
      {
        assert cache[clock] == Cleared(was, hand, k)[clock];
        if k < cache.Length {
          ClearNext(was, hand, k);
          NextHand(hand, k, cache.Length);
        }
        cache[clock] := cache[clock].(access := false);
        clock := (clock + 1) % cache.Length;
        k := k + 1;
      }
    }

    /** Frees the first slot, cyclically from the hand, that is unoccupied or unreferenced,
        or the hand's own slot after a full turn. */
    method Evict() returns (slot: nat)
      requires Valid()
      modifies this, cache, device
      ensures Abs() == Evicted(old(Abs()))
      ensures slot == clock
    {
      EvictKeepsView(Abs());
      Advance();
      slot := clock;
      if cache[slot].occupied {
        if cache[slot].dirty {
          Flush(slot);
        }
        cache[slot] := cache[slot].(occupied := false);
      }
    }

    method Load(s: nat) returns (slot: nat)
      requires Valid() && s < device.Length
      modifies this, cache, device
      ensures Abs() == Loaded(old(Abs()), s)
      ensures slot == Slot(Abs().cache, s) && slot < cache.Length
    {
      LoadKeepsView(Abs(), s);
      slot := Lookup(s);
      if slot == cache.Length {
        EvictKeepsView(Abs());
        slot := Evict();
        FillKeepsView(Abs(), s);
        cache[slot] := cache[slot].(occupied := true, sector := s, dirty := false, buffer := device[s]);
      }
    }

    method Read(s: nat) returns (target: Block)
      requires Valid() && s < device.Length
      modifies this, cache, device
      ensures Abs() == AfterRead(old(Abs()), s)
      ensures Valid() && Disk() == old(Disk()) && target == Disk()[s]
    {
      ReadKeepsView(Abs(), s);
      LoadKeepsView(Abs(), s);
      var slot := Load(s);
      assert View(Abs())[s] == cache[slot].buffer;
      cache[slot] := cache[slot].(access := true);
      target := cache[slot].buffer;
    }

    method Write(s: nat, source: Block)
      requires Valid() && s < device.Length
      modifies this, cache, device
      ensures Abs() == AfterWrite(old(Abs()), s, source)
      ensures Valid() && Disk() == old(Disk())[s := source]
    {
      WriteUpdatesView(Abs(), s, source);
      var slot := Load(s);
      cache[slot] := cache[slot].(access := true, dirty := true, buffer := source);
    }
  }
}
