/** The packed bit array of bitmap.c: machine words that refine a sequence of booleans. */
module Bitmaps {
  import opened Blocks

  /** Returned by Scan when no run exists (bitmap.h). */
  const BITMAP_ERROR: nat := 0xFFFF_FFFF

  function ElemIdx(i: nat): nat { i / 64 }

  /** A bit number below 64 as the six-bit amount by which a word is shifted. */
  function Amount(k: nat): bv6
    requires k < 64
  {
    if k == 0 then 0 else Amount(k - 1) + 1
  }

  function Shl(n: bv6): bv64 { (1 as bv64) << n }

  function ElemCnt(bits: nat): nat { (bits + 63) / 64 }

  function ByteCnt(bits: nat): nat { 8 * ElemCnt(bits) }

  predicate WordBit(w: bv64, t: bv6) { w & Shl(t) != 0 }

  lemma OrBit(w: bv64, s: bv6, t: bv6, v: bv64)
    requires v == w | Shl(s)
    ensures WordBit(v, t) <==> WordBit(w, t) || s == t
  {
  }

  /** w |= mask */
  method OrMask(w: bv64, s: bv6) returns (v: bv64)
    ensures forall t :: WordBit(v, t) <==> WordBit(w, t) || s == t
  {
    v := w | Shl(s);
    forall t: bv6 { OrBit(w, s, t, v); }
  }

  lemma ShlDisjoint(s: bv6, t: bv6)
    ensures s != t ==> Shl(s) & Shl(t) == 0
    ensures Shl(s) != 0
  {
  }

  lemma ClearedBit(w: bv64, m: bv64, n: bv64)
    ensures (w & !m) & m == 0
    ensures m & n == 0 ==> (w & !m) & n == w & n
  {
  }

  lemma AndNotBit(w: bv64, s: bv6, t: bv6, v: bv64)
    requires v == w & !Shl(s)
    ensures WordBit(v, t) <==> WordBit(w, t) && s != t
  {
    ClearedBit(w, Shl(s), Shl(t));
    ShlDisjoint(s, t);
  }

  /** w &= ~mask */
  method AndNotMask(w: bv64, s: bv6) returns (v: bv64)
    ensures forall t :: WordBit(v, t) <==> WordBit(w, t) && s != t
  {
    v := w & !Shl(s);
    forall t: bv6 { AndNotBit(w, s, t, v); }
  }

  lemma XorBit(w: bv64, s: bv6, t: bv6, v: bv64)
    requires v == w ^ Shl(s)
    ensures WordBit(v, t) <==> (WordBit(w, t) != (s == t))
  {
  }

  /** w ^= mask */
  method XorMask(w: bv64, s: bv6) returns (v: bv64)
    ensures forall t :: WordBit(v, t) <==> (WordBit(w, t) != (s == t))
  {
    v := w ^ Shl(s);
    forall t: bv6 { XorBit(w, s, t, v); }
  }

  lemma ShlLow(w: bv64, s: bv6, t: bv6)
    ensures (w & (Shl(s) - 1)) & Shl(t) != 0 <==> (w & Shl(t) != 0 && t < s)
  {
  }

  lemma LowBit(w: bv64, s: bv6, t: bv6, v: bv64)
    requires v == w & (Shl(s) - 1)
    ensures WordBit(v, t) <==> WordBit(w, t) && t < s
  {
    ShlLow(w, s, t);
  }

  /** w &= mask - 1, which keeps the bits below the mask */
  method KeepLow(w: bv64, s: bv6) returns (v: bv64)
    ensures forall t :: WordBit(v, t) <==> WordBit(w, t) && t < s
  {
    v := w & (Shl(s) - 1);
    forall t: bv6 { LowBit(w, s, t, v); }
  }

  lemma NextAmount(a: bv6)
    requires a != 63
    ensures (a + 1) as nat == a as nat + 1
  {
  }

  lemma {:induction false} AmountIs(k: nat)
    requires k < 64
    ensures Amount(k) as nat == k
  {
    if k > 0 {
      AmountIs(k - 1);
      NextAmount(Amount(k - 1));
    }
  }

  lemma UnsignedOrder(a: bv6, b: bv6)
    ensures a as nat < b as nat <==> a < b
  {
  }

  lemma {:induction false} AmountOrder(j: nat, k: nat)
    requires j < 64 && k < 64
    ensures Amount(j) == Amount(k) <==> j == k
    ensures Amount(j) < Amount(k) <==> j < k
  {
    AmountIs(j);
    AmountIs(k);
    UnsignedOrder(Amount(j), Amount(k));
  }

  // ----- The abstract value: a sequence of booleans -----

  /** CNT equal bits starting at i. */
  predicate RunAt(bits: seq<bool>, i: nat, cnt: nat, value: bool) {
    i + cnt <= |bits| && forall j :: i <= j < i + cnt ==> bits[j] == value
  }

  /** The number of bits in bits[lo..hi] that are VALUE. */
  function CountIn(bits: seq<bool>, lo: nat, hi: nat, value: bool): nat
    requires lo <= hi <= |bits|
  {
    if lo == hi then 0 else CountIn(bits, lo, hi - 1, value) + (if bits[hi - 1] == value then 1 else 0)
  }

  /** CNT bits from START overwritten with VALUE. */
  function SetRange(bits: seq<bool>, start: nat, cnt: nat, value: bool): (r: seq<bool>)
    requires start + cnt <= |bits|
    ensures |r| == |bits|
    ensures forall j :: 0 <= j < |bits| ==> r[j] == if start <= j < start + cnt then value else bits[j]
  {
    seq(|bits|, j requires 0 <= j < |bits| => if start <= j < start + cnt then value else bits[j])
  }

  lemma {:induction false} CountAgrees(a: seq<bool>, b: seq<bool>, lo: nat, hi: nat, value: bool)
    requires lo <= hi <= |a| && hi <= |b|
    requires forall j :: lo <= j < hi ==> a[j] == b[j]
    ensures CountIn(a, lo, hi, value) == CountIn(b, lo, hi, value)
  {
    if lo < hi {
      CountAgrees(a, b, lo, hi - 1, value);
    }
  }

  lemma {:induction false} CountSplit(bits: seq<bool>, lo: nat, mid: nat, hi: nat, value: bool)
    requires lo <= mid <= hi <= |bits|
    ensures CountIn(bits, lo, hi, value) == CountIn(bits, lo, mid, value) + CountIn(bits, mid, hi, value)
  {
    if mid < hi {
      CountSplit(bits, lo, mid, hi - 1, value);
    }
  }

  lemma {:induction false} CountUniform(bits: seq<bool>, lo: nat, hi: nat, value: bool, v: bool)
    requires lo <= hi <= |bits|
    requires forall j :: lo <= j < hi ==> bits[j] == v
    ensures CountIn(bits, lo, hi, value) == if v == value then hi - lo else 0
  {
    if lo < hi {
      CountUniform(bits, lo, hi - 1, value, v);
    }
  }

  /** Flipping a run of CNT bits that were VALUE removes exactly CNT from the count of VALUE. */
  lemma {:induction false} FlippedRunCount(bits: seq<bool>, start: nat, cnt: nat, value: bool)
    requires RunAt(bits, start, cnt, value)
    ensures CountIn(SetRange(bits, start, cnt, !value), 0, |bits|, value) + cnt == CountIn(bits, 0, |bits|, value)
  {
    var r := SetRange(bits, start, cnt, !value);
    CountSplit(bits, 0, start, |bits|, value);
    CountSplit(bits, start, start + cnt, |bits|, value);
    CountSplit(r, 0, start, |bits|, value);
    CountSplit(r, start, start + cnt, |bits|, value);
    CountAgrees(bits, r, 0, start, value);
    CountAgrees(bits, r, start + cnt, |bits|, value);
    CountUniform(bits, start, start + cnt, value, value);
    CountUniform(r, start, start + cnt, value, !value);
  }

  // ----- The byte image written to a file -----

  function Pow2(k: nat): nat
    requires k < 8
  {
    [1, 2, 4, 8, 16, 32, 64, 128][k]
  }

  function BitAt(bits: seq<bool>, i: nat): int {
    if i < |bits| && bits[i] then 1 else 0
  }

  /** The low n bits of byte p of the little-endian image of a bit sequence padded with zero bits. */
  function PackedBits(bits: seq<bool>, p: nat, n: nat): (r: int)
    requires n <= 8
    ensures 0 <= r < if n == 8 then 256 else Pow2(n)
  {
    if n == 0 then 0 else PackedBits(bits, p, n - 1) + Pow2(n - 1) * BitAt(bits, 8 * p + n - 1)
  }

  function ImageByte(bits: seq<bool>, p: nat): Byte { PackedBits(bits, p, 8) }

  /** The bytes of the words that hold BITS. */
  function Image(bits: seq<bool>): (r: seq<Byte>)
    ensures |r| == ByteCnt(|bits|)
  {
    seq(ByteCnt(|bits|), p requires 0 <= p < ByteCnt(|bits|) => ImageByte(bits, p))
  }

  predicate ByteBit(b: Byte, k: nat)
    requires k < 8
  {
    (b / Pow2(k)) % 2 == 1
  }

  /** The first N bits stored in a byte image. */
  function FromImage(bytes: seq<Byte>, n: nat): (r: seq<bool>)
    requires n <= 8 * |bytes|
    ensures |r| == n
  {
    seq(n, i requires 0 <= i < n => ByteBit(bytes[i / 8], i % 8))
  }

  lemma {:induction false} PackedBit(bits: seq<bool>, p: nat, n: nat, k: nat)
    requires k < n <= 8
    ensures ByteBit(PackedBits(bits, p, n), k) == (BitAt(bits, 8 * p + k) == 1)
  {
    var low := PackedBits(bits, p, n - 1);
    if k == n - 1 {
      TopBit(low, BitAt(bits, 8 * p + k), k);
    } else {
      PackedBit(bits, p, n - 1, k);
      HigherBit(low, BitAt(bits, 8 * p + n - 1), n - 1, k);
    }
  }

  /** Bit i is the bit of weight 2^(i % 8) in byte i / 8 of the image, and the padding is zero. */
  lemma {:induction false} ImageBit(bits: seq<bool>, i: nat)
    requires i < 8 * ByteCnt(|bits|)
    ensures (Image(bits)[i / 8] / Weight(i % 8)) % 2 == if i < |bits| && bits[i] then 1 else 0
  {
    PackedBit(bits, i / 8, 8, i % 8);
    assert 8 * (i / 8) + i % 8 == i;
    WeightIsPow2(i % 8);
    assert ImageByte(bits, i / 8) == PackedBits(bits, i / 8, 8);
  }

  /** Bit i read from an image is that bit too. */
  lemma {:induction false} BitFromImage(bytes: seq<Byte>, n: nat, i: nat)
    requires i < n <= 8 * |bytes|
    ensures FromImage(bytes, n)[i] <==> (bytes[i / 8] / Weight(i % 8)) % 2 == 1
  {
    WeightIsPow2(i % 8);
  }

  /** 2 to the k */
  function Weight(k: nat): (r: nat)
    ensures r > 0
  {
    if k == 0 then 1 else 2 * Weight(k - 1)
  }

  lemma {:induction false} WeightIsPow2(k: nat)
    requires k < 8
    ensures Weight(k) == Pow2(k)
  {
    assert Weight(0) == 1 && Weight(1) == 2 && Weight(2) == 4 && Weight(3) == 8;
    assert Weight(4) == 16 && Weight(5) == 32 && Weight(6) == 64 && Weight(7) == 128;
  }

  /** The image takes the fewest whole 64-bit words. */
  lemma ByteCntHolds(n: nat)
    ensures ByteCnt(n) % 8 == 0 && n <= 8 * ByteCnt(n) < n + 64
  {
  }

  lemma TopBit(low: int, b: int, k: nat)
    requires k < 8 && 0 <= low < Pow2(k) && 0 <= b <= 1
    ensures ((low + Pow2(k) * b) / Pow2(k)) % 2 == b
  {
  }

  lemma Pow2Split(n: nat, k: nat)
    requires k < n < 8
    ensures Pow2(n) == 2 * Pow2(n - k - 1) * Pow2(k)
  {
  }

  lemma DivAdd(x: nat, q: nat, k: nat)
    requires k < 8
    ensures (x + q * Pow2(k)) / Pow2(k) == x / Pow2(k) + q
  {
    if k == 0 {
    } else if k == 1 {
      assert (x + q * 2) / 2 == x / 2 + q;
    } else if k == 2 {
      assert (x + q * 4) / 4 == x / 4 + q;
    } else if k == 3 {
      assert (x + q * 8) / 8 == x / 8 + q;
    } else if k == 4 {
      assert (x + q * 16) / 16 == x / 16 + q;
    } else if k == 5 {
      assert (x + q * 32) / 32 == x / 32 + q;
    } else if k == 6 {
      assert (x + q * 64) / 64 == x / 64 + q;
    } else {
      assert (x + q * 128) / 128 == x / 128 + q;
    }
  }

  lemma HigherBit(low: int, b: int, n: nat, k: nat)
    requires k < n < 8 && 0 <= low < Pow2(n) && 0 <= b <= 1
    ensures ((low + Pow2(n) * b) / Pow2(k)) % 2 == (low / Pow2(k)) % 2
  {
    if b == 1 {
      var h := Pow2(n - k - 1);
      Pow2Split(n, k);
      DivAdd(low, 2 * h, k);
    }
  }

  /** Writing a bitmap to a file and reading it back restores every bit. */
  lemma ImageRoundTrip(bits: seq<bool>)
    ensures FromImage(Image(bits), |bits|) == bits
  {
    forall i | 0 <= i < |bits|
      ensures FromImage(Image(bits), |bits|)[i] == bits[i]
    {
      PackedBit(bits, i / 8, 8, i % 8);
      assert 8 * (i / 8) + i % 8 == i;
    }
  }

  /** The word that eight little-endian bytes at offset o hold, built up to its n low bits. */
  method WordOf(bytes: seq<Byte>, o: nat) returns (w: bv64)
    requires o + 8 <= |bytes|
    ensures forall j: nat {:trigger Amount(j)} :: j < 64 ==> WordBit(w, Amount(j)) == ByteBit(bytes[o + j / 8], j % 8)
  {
    w := 0;
    for n := 0 to 64
      invariant forall j: nat {:trigger Amount(j)} :: j < 64 ==>
        WordBit(w, Amount(j)) == (j < n && ByteBit(bytes[o + j / 8], j % 8))
    {
      if ByteBit(bytes[o + n / 8], n % 8) {
        w := OrMask(w, Amount(n));
        forall j: nat | j < 64 { AmountOrder(j, n); }
      }
    }
  }

  class Bitmap {
    const bitCnt: nat
    const bits: array<bv64>

    ghost predicate Valid()
      reads this, bits
    {
      && bitCnt < BITMAP_ERROR
      && bits.Length == ElemCnt(bitCnt)
      && forall i: nat :: bitCnt <= i < 64 * bits.Length ==> !Bit(i)
    }

    /** Bit i of the words, padding included. */
    ghost predicate Bit(i: nat)
      requires i < 64 * bits.Length
      reads this, bits
    {
      WordBit(bits[i / 64], Amount(i % 64))
    }

    /** The sequence of booleans that the words represent. */
    ghost function Bits(): (r: seq<bool>)
      requires bits.Length == ElemCnt(bitCnt)
      reads this, bits
      ensures |r| == bitCnt
    {
      seq(bitCnt, i requires 0 <= i < bitCnt && bits.Length == ElemCnt(bitCnt) reads this, bits => Bit(i))
    }

    constructor (n: nat)
      requires n < BITMAP_ERROR
      ensures Valid() && fresh(bits) && bitCnt == n
      ensures forall i :: 0 <= i < n ==> !Bits()[i]
    {
      bitCnt := n;
      bits := new bv64[ElemCnt(n)](_ => 0);
      new;
      SetAll(false);
    }

    /** One word changed at one bit: the effect on the whole bitmap. */
    twostate lemma {:induction false} WordChanged(i: nat)
      requires bits.Length == ElemCnt(bitCnt) && i < bitCnt
      requires forall k :: 0 <= k < bits.Length && k != i / 64 ==> bits[k] == old(bits[k])
      requires forall t :: t != Amount(i % 64) ==> WordBit(bits[i / 64], t) == WordBit(old(bits[i / 64]), t)
      ensures forall j: nat :: j < 64 * bits.Length && j != i ==> Bit(j) == old(Bit(j))
    {
      forall j: nat | j < 64 * bits.Length && j != i
        ensures Bit(j) == old(Bit(j))
      {
        AmountOrder(j % 64, i % 64);
      }
    }

    method Mark(i: nat)
      requires Valid() && i < bitCnt
      modifies bits
      ensures Valid() && Bits() == old(Bits())[i := true]
    {
      bits[ElemIdx(i)] := OrMask(bits[ElemIdx(i)], Amount(i % 64));
      WordChanged(i);
    }

    method Reset(i: nat)
      requires Valid() && i < bitCnt
      modifies bits
      ensures Valid() && Bits() == old(Bits())[i := false]
    {
      bits[ElemIdx(i)] := AndNotMask(bits[ElemIdx(i)], Amount(i % 64));
      WordChanged(i);
    }

    method Flip(i: nat)
      requires Valid() && i < bitCnt
      modifies bits
      ensures Valid() && Bits() == old(Bits())[i := !old(Bits())[i]]
    {
      bits[ElemIdx(i)] := XorMask(bits[ElemIdx(i)], Amount(i % 64));
      WordChanged(i);
    }

    method Set(i: nat, value: bool)
      requires Valid() && i < bitCnt
      modifies bits
      ensures Valid() && Bits() == old(Bits())[i := value]
    {
      if value {
        Mark(i);
      } else {
        Reset(i);
      }
    }

    method Test(i: nat) returns (r: bool)
      requires Valid() && i < bitCnt
      ensures r == Bits()[i]
    {
      r := bits[ElemIdx(i)] & Shl(Amount(i % 64)) != 0;
    }

    method SetMultiple(start: nat, cnt: nat, value: bool)
      requires Valid() && start + cnt <= bitCnt
      modifies bits
      ensures Valid() && Bits() == SetRange(old(Bits()), start, cnt, value)
    {
      for i := 0 to cnt
        invariant Valid() && Bits() == SetRange(old(Bits()), start, i, value)
      {
        Set(start + i, value);
      }
    }

    method SetAll(value: bool)
      requires Valid()
      modifies bits
      ensures Valid() && forall i :: 0 <= i < bitCnt ==> Bits()[i] == value
    {
      SetMultiple(0, bitCnt, value);
    }

    method Count(start: nat, cnt: nat, value: bool) returns (n: nat)
      requires Valid() && start + cnt <= bitCnt
      ensures n == CountIn(Bits(), start, start + cnt, value)
    {
      n := 0;
      for i := 0 to cnt
        invariant n == CountIn(Bits(), start, start + i, value)
      {
        var b := Test(start + i);
        if b == value {
          n := n + 1;
        }
      }
    }

    method Contains(start: nat, cnt: nat, value: bool) returns (r: bool)
      requires Valid() && start + cnt <= bitCnt
      ensures r == exists j :: start <= j < start + cnt && Bits()[j] == value
      ensures !r == RunAt(Bits(), start, cnt, !value)
    {
      for i := 0 to cnt
        invariant forall j :: start <= j < start + i ==> Bits()[j] != value
      {
        var b := Test(start + i);
        if b == value {
          return true;
        }
      }
      return false;
    }

    /** The least start of a run of CNT bits equal to VALUE at or after START, or
        BITMAP_ERROR exactly when there is none. */
    method Scan(start: nat, cnt: nat, value: bool) returns (idx: nat)
      requires Valid() && start <= bitCnt
      ensures idx == BITMAP_ERROR ==> forall i: nat :: start <= i ==> !RunAt(Bits(), i, cnt, value)
      ensures idx != BITMAP_ERROR ==> start <= idx && RunAt(Bits(), idx, cnt, value)
                                      && forall i: nat :: start <= i < idx ==> !RunAt(Bits(), i, cnt, value)
    {
      if cnt <= bitCnt {
        var last := bitCnt - cnt;
        var i := start;
        while i <= last
          invariant start <= i
          invariant forall k: nat :: start <= k < i ==> !RunAt(Bits(), k, cnt, value)
        {
          var b := Contains(i, cnt, !value);
          if !b {
            return i;
          }
          i := i + 1;
        }
      }
      return BITMAP_ERROR;
    }

    /** Flips the least run of CNT bits equal to VALUE, and nothing else. */
    method ScanAndFlip(start: nat, cnt: nat, value: bool) returns (idx: nat)
      requires Valid() && start <= bitCnt
      modifies bits
      ensures Valid()
      ensures idx == BITMAP_ERROR ==> Bits() == old(Bits())
                                      && forall i: nat :: start <= i ==> !RunAt(Bits(), i, cnt, value)
      ensures idx != BITMAP_ERROR ==> start <= idx && RunAt(old(Bits()), idx, cnt, value)
                                      && (forall i: nat :: start <= i < idx ==> !RunAt(old(Bits()), i, cnt, value))
                                      && Bits() == SetRange(old(Bits()), idx, cnt, !value)
      ensures idx != BITMAP_ERROR ==> CountIn(Bits(), 0, bitCnt, value) + cnt == CountIn(old(Bits()), 0, bitCnt, value)
    {
      idx := Scan(start, cnt, value);
      if idx != BITMAP_ERROR {
        FlippedRunCount(Bits(), idx, cnt, value);
        SetMultiple(idx, cnt, !value);
      }
    }

    method RawBit(i: nat) returns (r: bool)
      requires i < 64 * bits.Length
      ensures r == Bit(i)
    {
      r := bits[ElemIdx(i)] & Shl(Amount(i % 64)) != 0;
    }

    /** Byte p of the memory that holds the words. */
    method MemoryByte(p: nat) returns (b: Byte)
      requires Valid() && p < 8 * bits.Length
      ensures b == ImageByte(Bits(), p)
    {
      var sum := 0;
      for j := 0 to 8
        invariant sum == PackedBits(Bits(), p, j)
      {
        var bit := RawBit(8 * p + j);
        if bit {
          sum := sum + Pow2(j);
        }
      }
      b := sum;
    }

    /** The memory image handed to the file layer (bitmap_write). */
    method ToBytes() returns (bytes: seq<Byte>)
      requires Valid()
      ensures bytes == Image(Bits())
      ensures forall i: nat :: i < 8 * |bytes| ==>
                (bytes[i / 8] / Weight(i % 8)) % 2 == if i < bitCnt && Bits()[i] then 1 else 0
    {
      bytes := [];
      for p := 0 to 8 * bits.Length
        invariant bytes == Image(Bits())[..p]
      {
        var b := MemoryByte(p);
        bytes := bytes + [b];
      }
      forall i: nat | i < 8 * |bytes|
        ensures (bytes[i / 8] / Weight(i % 8)) % 2 == if i < bitCnt && Bits()[i] then 1 else 0
      {
        ImageBit(Bits(), i);
      }
    }

    /** Loads the words from a file's bytes and clears the padding bits (bitmap_read). */
    method FromBytes(bytes: seq<Byte>)
      requires Valid() && |bytes| == ByteCnt(bitCnt)
      modifies bits
      ensures Valid() && Bits() == FromImage(bytes, bitCnt)
      ensures forall i: nat :: i < bitCnt ==> (Bits()[i] <==> (bytes[i / 8] / Weight(i % 8)) % 2 == 1)
    {
      if bitCnt > 0 {
        for w := 0 to bits.Length
          invariant forall i: nat :: i < 64 * w ==> Bit(i) == ByteBit(bytes[i / 8], i % 8)
        {
          LoadWord(w, bytes);
        }
        ClearPadding();
      }
      forall i: nat | i < bitCnt
        ensures Bits()[i] <==> (bytes[i / 8] / Weight(i % 8)) % 2 == 1
      {
        BitFromImage(bytes, bitCnt, i);
      }
    }

    /** Word w from its eight bytes. */
    method LoadWord(w: nat, bytes: seq<Byte>)
      requires w < bits.Length && |bytes| == 8 * bits.Length
      modifies bits
      ensures forall k :: 0 <= k < bits.Length && k != w ==> bits[k] == old(bits[k])
      ensures forall i: nat :: 64 * w <= i < 64 * w + 64 ==> Bit(i) == ByteBit(bytes[i / 8], i % 8)
    {
      var v := WordOf(bytes, 8 * w);
      bits[w] := v;
      forall i: nat | 64 * w <= i < 64 * w + 64
        ensures Bit(i) == ByteBit(bytes[i / 8], i % 8)
      {
        BytePlace(i, w);
        assert WordBit(v, Amount(i % 64)) == ByteBit(bytes[8 * w + (i % 64) / 8], (i % 64) % 8);
      }
    }

    /** The last step of bitmap_read: the bits of the last word from bitCnt on are cleared. */
    method ClearPadding()
      requires bitCnt > 0 && bits.Length == ElemCnt(bitCnt) && bitCnt < BITMAP_ERROR
      modifies bits
      ensures Valid() && Bits() == old(Bits())
    {
      if bitCnt % 64 != 0 {
        MaskWord(ElemCnt(bitCnt) - 1, bitCnt % 64);
        assert forall i: nat :: i < bitCnt ==> Bit(i) == old(Bit(i));
      }
    }

    /** bits[w] &= mask - 1: keeps the n low bits of word w. */
    method MaskWord(w: nat, n: nat)
      requires w < bits.Length && 0 < n < 64
      modifies bits
      ensures forall k :: 0 <= k < bits.Length && k != w ==> bits[k] == old(bits[k])
      ensures forall i: nat :: 64 * w <= i < 64 * w + 64 ==> Bit(i) == (old(Bit(i)) && i < 64 * w + n)
    {
      var was := bits[w];
      var v := KeepLow(was, Amount(n));
      bits[w] := v;
      forall i: nat | 64 * w <= i < 64 * w + 64
        ensures Bit(i) == (old(Bit(i)) && i < 64 * w + n)
      {
        BytePlace(i, w);
        AmountOrder(i % 64, n);
        assert WordBit(v, Amount(i % 64)) <==> WordBit(was, Amount(i % 64)) && Amount(i % 64) < Amount(n);
      }
    }
  }

  lemma BytePlace(i: nat, w: nat)
    requires 64 * w <= i < 64 * w + 64
    ensures i / 64 == w && i / 8 == 8 * w + (i % 64) / 8 && i % 8 == (i % 64) % 8 && (i % 64) / 8 < 8
  {
  }
}
