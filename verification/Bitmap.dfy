/** The free-block bitmap of src/fs.c: one bit per disk block, packed eight to a byte in bitmap blocks. */
module Bitmap {
  import opened Blocks

  const BPB := 4096   // bits per bitmap block: BSIZE * 8

  /** 1 << k */
  function Mask(k: nat): (m: nat)
    ensures m >= 1
  {
    if k == 0 then 1 else 2 * Mask(k - 1)
  }

  /** x & (1 << k) != 0 */
  predicate Bit(x: nat, k: nat) {
    if k == 0 then x % 2 == 1 else Bit(x / 2, k - 1)
  }

  /** x | (1 << k), for a clear bit of a number of w bits: no other bit changes. */
  function WithBit(x: nat, k: nat, w: nat): (r: nat)
    requires k < w && x < Mask(w) && !Bit(x, k)
    ensures r == x + Mask(k) < Mask(w)
    ensures Bit(r, k) && forall j: nat | j != k :: Bit(r, j) == Bit(x, j)
    decreases k
  {
    if k == 0 then x + 1 else x % 2 + 2 * WithBit(x / 2, k - 1, w - 1)
  }

  /** x & ~(1 << k), for a set bit: no other bit changes. */
  function WithoutBit(x: nat, k: nat): (r: nat)
    requires Bit(x, k)
    ensures r == x - Mask(k)
    ensures !Bit(r, k) && forall j: nat | j != k :: Bit(r, j) == Bit(x, j)
    decreases k
  {
    if k == 0 then x - 1 else x % 2 + 2 * WithoutBit(x / 2, k - 1)
  }

  /** Is the bit of block b set? */
  predicate Used(bm: seq<Block>, b: nat)
    requires b < |bm| * BPB
  {
    Bit(bm[b / BPB][b % BPB / 8], b % 8)
  }

  lemma Place(b: nat, c: nat)
    ensures b / BPB == c / BPB && b % BPB / 8 == c % BPB / 8 && b % 8 == c % 8 <==> b == c
  {
  }

  lemma ByteMask()
    ensures Mask(8) == 256
  {
  }

  function SetBit(bm: seq<Block>, b: nat): seq<Block>
    requires b < |bm| * BPB && !Used(bm, b) && Mask(8) == 256
  {
    bm[b / BPB := bm[b / BPB][b % BPB / 8 := WithBit(bm[b / BPB][b % BPB / 8], b % 8, 8)]]
  }

  lemma SetBitUsed(bm: seq<Block>, b: nat)
    requires b < |bm| * BPB && !Used(bm, b) && Mask(8) == 256
    ensures |SetBit(bm, b)| == |bm|
    ensures forall c: nat | c < |bm| * BPB :: Used(SetBit(bm, b), c) == (c == b || Used(bm, c))
  {
    hide Bit, WithBit, Mask;
    forall c: nat | c < |bm| * BPB ensures Used(SetBit(bm, b), c) == (c == b || Used(bm, c)) { Place(b, c); }
  }

  /** The bitmap with one more block in use. */
  function Mark(bm: seq<Block>, b: nat): (r: seq<Block>)
    requires b < |bm| * BPB && !Used(bm, b)
    ensures |r| == |bm|
    ensures forall c: nat | c < |bm| * BPB :: Used(r, c) == (c == b || Used(bm, c))
    ensures forall j: nat | j < |bm| && j != b / BPB :: r[j] == bm[j]
  {
    ByteMask();
    SetBitUsed(bm, b);
    SetBit(bm, b)
  }

  function ClearBit(bm: seq<Block>, b: nat): seq<Block>
    requires b < |bm| * BPB && Used(bm, b)
  {
    bm[b / BPB := bm[b / BPB][b % BPB / 8 := WithoutBit(bm[b / BPB][b % BPB / 8], b % 8)]]
  }

  lemma ClearBitUsed(bm: seq<Block>, b: nat)
    requires b < |bm| * BPB && Used(bm, b)
    ensures |ClearBit(bm, b)| == |bm|
    ensures forall c: nat | c < |bm| * BPB :: Used(ClearBit(bm, b), c) == (c != b && Used(bm, c))
  {
    hide Bit, WithoutBit, Mask;
    forall c: nat | c < |bm| * BPB ensures Used(ClearBit(bm, b), c) == (c != b && Used(bm, c)) { Place(b, c); }
  }

  /** The bitmap with one block less in use. */
  function Unmark(bm: seq<Block>, b: nat): (r: seq<Block>)
    requires b < |bm| * BPB && Used(bm, b)
    ensures |r| == |bm|
    ensures forall c: nat | c < |bm| * BPB :: Used(r, c) == (c != b && Used(bm, c))
    ensures forall j: nat | j < |bm| && j != b / BPB :: r[j] == bm[j]
  {
    ClearBitUsed(bm, b);
    ClearBit(bm, b)
  }

  /** The search of balloc: bitmap block by bitmap block, bit by bit, for the first clear bit below `size`;
      -1 when there is none. */
  method FindFree(bm: seq<Block>, size: nat) returns (r: int)
    requires size <= |bm| * BPB
    ensures -1 <= r < size
    ensures 0 <= r ==> !Used(bm, r) && forall c: nat | c < r :: Used(bm, c)
    ensures r < 0 ==> forall c: nat | c < size :: Used(bm, c)
  {
    hide Bit;
    var b := 0;
    while b < size
      invariant b % BPB == 0 && b < size + BPB
      invariant forall c: nat | c < b && c < size :: Used(bm, c)
    {
      var bi := 0;
      while bi < BPB && b + bi < size
        invariant bi <= BPB
        invariant forall c: nat | c < b + bi && c < size :: Used(bm, c)
      {
        assert (b + bi) / BPB == b / BPB && (b + bi) % BPB == bi && (b + bi) % 8 == bi % 8;
        if !Bit(bm[b / BPB][bi / 8], bi % 8) {
          return b + bi;
        }
        bi := bi + 1;
      }
      b := b + BPB;
    }
    r := -1;
  }
}
