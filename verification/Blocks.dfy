/** Sectors of the block device and the 32-bit words stored in them (block.h, inode.h). */
module Blocks {

  type Byte = x: int | 0 <= x < 256

  /** BLOCK_SECTOR_SIZE bytes. */
  type Block = b: seq<Byte> | |b| == 512 witness seq(512, _ => 0)

  /** A 32-bit unsigned word: block_sector_t, offset_t >= 0, magic. */
  type Word = x: int | 0 <= x < 0x1_0000_0000

  /** offset_t */
  type Offset = x: int | -0x8000_0000 <= x < 0x8000_0000

  /** The bounce buffer cleared by memset. */
  function Zeros(): Block { seq(512, _ => 0) }

  function WordByte(w: Word, k: nat): Byte
    requires k < 4
  {
    if k == 0 then w % 256
    else if k == 1 then (w / 256) % 256
    else if k == 2 then (w / 65536) % 256
    else w / 16777216
  }

  /** The little-endian word at byte offset o. */
  function WordAt(b: seq<Byte>, o: nat): Word
    requires o + 4 <= |b|
  {
    (b[o] as int) + 256 * (b[o + 1] as int) + 65536 * (b[o + 2] as int) + 16777216 * (b[o + 3] as int)
  }

  /** INDIRECT_BLOCKS_PER_SECTOR: the words of a sector, and the entries of an index block. */
  const PER_BLOCK: nat := 128

  /** A sector read as an array of words, e.g. as an index block. */
  function Words(b: Block): (ws: seq<Word>)
    ensures |ws| == PER_BLOCK
    ensures forall i :: 0 <= i < PER_BLOCK ==> ws[i] == WordAt(b, 4 * i)
  {
    seq(PER_BLOCK, i requires 0 <= i < PER_BLOCK => WordAt(b, 4 * i))
  }

  /** An array of words laid out in a sector. */
  function FromWords(ws: seq<Word>): (b: Block)
    requires |ws| == PER_BLOCK
    ensures forall p :: 0 <= p < 512 ==> b[p] == WordByte(ws[p / 4], p % 4)
  {
    seq(512, p requires 0 <= p < 512 => WordByte(ws[p / 4], p % 4))
  }

  lemma WordFromBytes(b: seq<Byte>, o: nat, w: Word)
    requires o + 4 <= |b|
    requires b[o] == WordByte(w, 0) && b[o + 1] == WordByte(w, 1)
    requires b[o + 2] == WordByte(w, 2) && b[o + 3] == WordByte(w, 3)
    ensures WordAt(b, o) == w
  {
    var w1, w2 := w / 256, w / 65536;
    assert w1 / 256 == w2 && w2 / 256 == w / 16777216;
  }

  /** The least significant byte comes first. */
  lemma LittleEndian(b: seq<Byte>, o: nat)
    requires o + 4 <= |b|
    ensures var w := WordAt(b, o);
            && w % 256 == b[o] && (w / 256) % 256 == b[o + 1] && (w / 65536) % 256 == b[o + 2] && w / 16777216 == b[o + 3]
  {
    var w := WordAt(b, o);
    assert w / 256 == (b[o + 1] as int) + 256 * (b[o + 2] as int) + 65536 * (b[o + 3] as int);
    assert w / 65536 == (b[o + 2] as int) + 256 * (b[o + 3] as int);
  }

  /** Writing an index block and reading it back gives the same entries. */
  lemma WordsRoundTrip(ws: seq<Word>)
    requires |ws| == PER_BLOCK
    ensures Words(FromWords(ws)) == ws
  {
    var b := FromWords(ws);
    forall i | 0 <= i < PER_BLOCK
      ensures Words(b)[i] == ws[i]
    {
      assert (4 * i) / 4 == i && (4 * i) % 4 == 0;
      assert (4 * i + 1) / 4 == i && (4 * i + 1) % 4 == 1;
      assert (4 * i + 2) / 4 == i && (4 * i + 2) % 4 == 2;
      assert (4 * i + 3) / 4 == i && (4 * i + 3) % 4 == 3;
      WordFromBytes(b, 4 * i, ws[i]);
    }
  }

  /** A zeroed sector holds only null entries. */
  lemma ZeroWords()
    ensures forall i :: 0 <= i < PER_BLOCK ==> Words(Zeros())[i] == 0
  {
  }
}
