/** The bytes of a file as they lie in its data sectors. */
module Content {
  import opened Blocks
  import opened Layout

  /** Byte x of the data sectors of a file whose sectors are SECS. */
  function ByteAt(disk: seq<Block>, secs: seq<nat>, x: nat): Byte {
    var q := Pos(x / 512);
    if q < |secs| && secs[q] < |disk| then disk[secs[q]][x % 512] else 0
  }

  /** The first LENGTH bytes. */
  function Bytes(disk: seq<Block>, secs: seq<nat>, length: nat): (r: seq<Byte>)
    ensures |r| == length
    ensures forall x :: 0 <= x < length ==> r[x] == ByteAt(disk, secs, x)
  {
    seq(length, x requires 0 <= x < length => ByteAt(disk, secs, x))
  }

  /** The bytes from LO to the end of the n allocated sectors are zero. */
  ghost predicate ZeroFrom(disk: seq<Block>, secs: seq<nat>, lo: nat, n: nat) {
    forall x :: lo <= x < 512 * n ==> ByteAt(disk, secs, x) == 0
  }

  /** DATA with BUFFER written at OFFSET; a gap past the old end reads as zeros. */
  function Spliced(data: seq<Byte>, offset: nat, buffer: seq<Byte>): (r: seq<Byte>)
    ensures |r| == if offset + |buffer| > |data| then offset + |buffer| else |data|
  {
    seq(if offset + |buffer| > |data| then offset + |buffer| else |data|, x requires 0 <= x =>
      if offset <= x < offset + |buffer| then buffer[x - offset] else if x < |data| then data[x] else 0)
  }

  /** DATA with its length changed to n, zeros added. */
  function Extended(data: seq<Byte>, n: nat): (r: seq<Byte>)
    ensures |r| == n
  {
    seq(n, x requires 0 <= x < n => if x < |data| then data[x] else 0)
  }

  /** A sector with PIECE written at OFS. */
  function Patched(b: Block, ofs: nat, piece: seq<Byte>): (r: Block)
    requires ofs + |piece| <= 512
    ensures forall y :: 0 <= y < 512 ==> r[y] == if ofs <= y < ofs + |piece| then piece[y - ofs] else b[y]
  {
    b[..ofs] + piece + b[ofs + |piece|..]
  }

  lemma PatchIsRead(x: nat, i: nat)
    ensures x / 512 == i <==> 512 * i <= x < 512 * i + 512
    ensures x / 512 == i ==> x % 512 == x - 512 * i
  {
  }

  /** Patching one data sector changes exactly the patched bytes of the file. */
  lemma PatchSector(disk: seq<Block>, tags: seq<Tag>, id: nat, secs: seq<nat>, i: nat, ofs: nat, piece: seq<Byte>, x: nat)
    requires Claims(tags, id, secs) && |tags| <= |disk| && Pos(i) < |secs| && ofs + |piece| <= 512
    ensures var s := secs[Pos(i)];
            ByteAt(disk[s := Patched(disk[s], ofs, piece)], secs, x) ==
            if 512 * i + ofs <= x < 512 * i + ofs + |piece| then piece[x - 512 * i - ofs] else ByteAt(disk, secs, x)
  {
    PatchIsRead(x, i);
    PosInjective(x / 512, i);
    var q := Pos(x / 512);
    if q < |secs| && q != Pos(i) {
      assert tags[secs[q]] != tags[secs[Pos(i)]];
    }
  }

  /** The bytes after a write of BUFFER at OFFSET within the allocated sectors. */
  ghost predicate Wrote(disk0: seq<Block>, disk1: seq<Block>, secs: seq<nat>, offset: nat, buffer: seq<Byte>) {
    forall x :: 0 <= x && Pos(x / 512) < |secs| ==>
      ByteAt(disk1, secs, x) == if offset <= x < offset + |buffer| then buffer[x - offset] else ByteAt(disk0, secs, x)
  }

  /** One more chunk written. */
  lemma WroteMore(disk0: seq<Block>, disk: seq<Block>, tags: seq<Tag>, id: nat, secs: seq<nat>, offset: nat, buffer: seq<Byte>, done: nat, chunk: nat)
    requires Claims(tags, id, secs) && |tags| <= |disk| && done + chunk <= |buffer|
    requires (offset + done) % 512 + chunk <= 512 && Pos((offset + done) / 512) < |secs|
    requires Wrote(disk0, disk, secs, offset, buffer[..done])
    ensures var at := offset + done;
            var s := secs[Pos(at / 512)];
            Wrote(disk0, disk[s := Patched(disk[s], at % 512, buffer[done..done + chunk])], secs, offset, buffer[..done + chunk])
  {
    var at := offset + done;
    var s := secs[Pos(at / 512)];
    var piece := buffer[done..done + chunk];
    var disk1 := disk[s := Patched(disk[s], at % 512, piece)];
    forall x | 0 <= x && Pos(x / 512) < |secs|
      ensures ByteAt(disk1, secs, x) ==
              if offset <= x < offset + done + chunk then buffer[x - offset] else ByteAt(disk0, secs, x)
    {
      PatchSector(disk, tags, id, secs, at / 512, at % 512, piece, x);
    }
  }

  lemma WroteBytes(disk0: seq<Block>, disk1: seq<Block>, secs: seq<nat>, length: nat, offset: nat, buffer: seq<Byte>)
    requires Wrote(disk0, disk1, secs, offset, buffer) && offset + |buffer| <= length && |secs| == Cost(Sectors(length))
    ensures Bytes(disk1, secs, length) == Spliced(Bytes(disk0, secs, length), offset, buffer)
  {
    forall x | 0 <= x < length
      ensures ByteAt(disk1, secs, x) == Spliced(Bytes(disk0, secs, length), offset, buffer)[x]
    {
      InFile(x / 512, Sectors(length));
    }
  }

  lemma SplicedExtended(data: seq<Byte>, offset: nat, buffer: seq<Byte>)
    requires |data| <= offset + |buffer|
    ensures Spliced(Extended(data, offset + |buffer|), offset, buffer) == Spliced(data, offset, buffer)
  {
  }
}
