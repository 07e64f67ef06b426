/** Disk blocks: 1024 bytes, also read as 256 little-endian 32-bit words. */
module Blocks {
  const BLOCK_SIZE := 1024
  const PTRS_PER_BLOCK := 256

  type Byte = x: int | 0 <= x < 0x100
  type Word = x: int | 0 <= x < 0x1_0000_0000
  type Block = b: seq<Byte> | |b| == BLOCK_SIZE witness seq(BLOCK_SIZE, i => 0)

  function ZeroBlock(): (b: Block)
    ensures forall i: nat | i < PTRS_PER_BLOCK :: WordAt(b, i) == 0
  {
    seq(BLOCK_SIZE, i => 0)
  }

  /** Word `i` of a block, as the pointer arrays of the file system overlay it. */
  function WordAt(b: Block, i: nat): Word
    requires i < PTRS_PER_BLOCK
  {
    (b[4 * i] as int) + 0x100 * (b[4 * i + 1] as int)
    + 0x1_0000 * (b[4 * i + 2] as int) + 0x100_0000 * (b[4 * i + 3] as int)
  }

  lemma ByteOf(w: nat)
    ensures w / 0x1_0000 == w / 0x100 / 0x100 && w / 0x100_0000 == w / 0x1_0000 / 0x100
  {
  }

  lemma FourBytes(w: Word)
    ensures w == w % 0x100 + 0x100 * (w / 0x100 % 0x100) + 0x1_0000 * (w / 0x1_0000 % 0x100) +
      0x100_0000 * (w / 0x100_0000)
    ensures w / 0x100_0000 < 0x100
  {
    ByteOf(w);
    var a, b, c := w / 0x100, w / 0x1_0000, w / 0x100_0000;
    assert w == 0x100 * a + w % 0x100;
    assert a == 0x100 * b + a % 0x100;
    assert b == 0x100 * c + b % 0x100;
  }

  /** The block with word `i` replaced, all other words kept. */
  function PutWord(b: Block, i: nat, w: Word): (r: Block)
    requires i < PTRS_PER_BLOCK
    ensures WordAt(r, i) == w
    ensures forall j: nat | j < PTRS_PER_BLOCK && j != i :: WordAt(r, j) == WordAt(b, j)
  {
    FourBytes(w);
    b[4 * i := w % 0x100][4 * i + 1 := w / 0x100 % 0x100]
      [4 * i + 2 := w / 0x1_0000 % 0x100][4 * i + 3 := w / 0x100_0000]
  }

  /** The lowest byte of a word comes first. */
  lemma ByteOrder(b: Block, i: nat, w: Word)
    requires i < PTRS_PER_BLOCK
    ensures PutWord(b, i, w)[..4 * i] == b[..4 * i] && PutWord(b, i, w)[4 * i + 4..] == b[4 * i + 4..]
    ensures PutWord(b, i, 0x0403_0201)[4 * i..4 * i + 4] == [1, 2, 3, 4]
  {
  }
}
