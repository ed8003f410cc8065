/** Disk blocks as byte arrays, and the little-endian 32-bit words that the log
    header and the indirect blocks overlay on them. */
module Blocks {

  const BSIZE := 1024
  const WORDS := BSIZE / 4
  const U32 := 0x1_0000_0000

  type byte = x: int | 0 <= x < 256

  type Block = b: seq<byte> | |b| == BSIZE witness seq(BSIZE, _ => 0)

  const ZERO: Block := Zeros()

  function Zeros(): (b: Block)
    ensures forall i :: 0 <= i < BSIZE ==> b[i] == 0
  {
    seq(BSIZE, _ => 0)
  }

  /** The i-th 32-bit word of a block. */
  function Word(b: Block, i: nat): (w: nat)
    requires i < WORDS
    ensures w < U32
  {
    var b0: int, b1: int, b2: int, b3: int := b[4 * i], b[4 * i + 1], b[4 * i + 2], b[4 * i + 3];
    b0 + 0x100 * b1 + 0x1_0000 * b2 + 0x100_0000 * b3
  }

  function PutWord(b: Block, i: nat, w: nat): Block
    requires i < WORDS && w < U32
  {
    b[4 * i := w % 0x100]
     [4 * i + 1 := w / 0x100 % 0x100]
     [4 * i + 2 := w / 0x1_0000 % 0x100]
     [4 * i + 3 := w / 0x100_0000]
  }

  /** Writing one word changes that word and no other. */
  lemma WordOfPutWord(b: Block, i: nat, w: nat, j: nat)
    requires i < WORDS && j < WORDS && w < U32
    ensures Word(PutWord(b, i, w), j) == if i == j then w else Word(b, j)
  {
    var q := w / 0x100;
    assert w / 0x1_0000 == q / 0x100;
    assert w / 0x100_0000 == q / 0x100 / 0x100;
  }

  lemma WordOfZero(i: nat)
    requires i < WORDS
    ensures Word(ZERO, i) == 0
  {
  }
}
