/** Disk blocks: BSIZE bytes, also read and written as 32-bit little-endian words. */
module Blocks {
  import opened Seqs

  const BSIZE := 512
  const WORDS := 128
  const WORD_LIMIT := 0x1_0000_0000

  type Byte = x: int | 0 <= x < 256
  type Block = b: seq<Byte> | |b| == BSIZE witness Zeros(BSIZE)

  function Zeros(n: nat): (r: seq<Byte>)
    ensures |r| == n
    ensures forall i | 0 <= i < n :: r[i] == 0
  {
    Copies<Byte>(0, n)
  }

  /** A block of zero bytes. */
  function Zero(): Block { Zeros(BSIZE) }

  /** The i-th entry of the block when its bytes are used as an array of uint. */
  function WordAt(b: Block, i: nat): (w: nat)
    requires i < WORDS
    ensures w < WORD_LIMIT
  {
    var b0: int, b1: int, b2: int, b3: int := b[4 * i], b[4 * i + 1], b[4 * i + 2], b[4 * i + 3];
    b0 + 256 * b1 + 65536 * b2 + 16777216 * b3
  }

  lemma SplitWord(w: nat)
    requires w < WORD_LIMIT
    ensures w / 16777216 < 256
    ensures w == w % 256 + 256 * (w / 256 % 256) + 65536 * (w / 65536 % 256) + 16777216 * (w / 16777216)
  {
    assert w / 256 / 256 == w / 65536 && w / 65536 / 256 == w / 16777216;
    assert w / 256 == 256 * (w / 256 / 256) + w / 256 % 256;
    assert w / 65536 == 256 * (w / 65536 / 256) + w / 65536 % 256;
  }

  /** Store w as the i-th uint of the block; no other word changes. */
  function PutWord(b: Block, i: nat, w: nat): (r: Block)
    requires i < WORDS && w < WORD_LIMIT
    ensures WordAt(r, i) == w
    ensures r[4 * i] == w % 256 && r[4 * i + 1] == w / 256 % 256 && r[4 * i + 2] == w / 65536 % 256
    ensures r[4 * i + 3] == w / 16777216
    ensures forall j: nat | j < WORDS && j != i :: WordAt(r, j) == WordAt(b, j)
  {
    SplitWord(w);
    b[..4 * i] + [w % 256, w / 256 % 256, w / 65536 % 256, w / 16777216] + b[4 * i + 4..]
  }
}
