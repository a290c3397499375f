/** The on-disk file system of src/fs.c: inodes that own data blocks through direct and indirect references,
    a bitmap of the blocks in use, and the bytes each file consists of. */
module FsModel {
  import opened Blocks
  import opened Bitmap

  const NDIRECT := 12
  const NINDIRECT := 128      // BSIZE / sizeof(uint)
  const MAXFILE := 140        // NDIRECT + NINDIRECT
  const REFS := 141           // the references an inode can hold: 12 direct, 1 indirect block, its 128 entries

  /** The super block: block numbers and sizes of the areas.  Blocks below nmeta hold no file data. */
  datatype Super = Super(size: nat, nmeta: nat, inodestart: nat, bmapstart: nat)

  datatype Dinode = Dinode(typ: int, major: int, minor: int, nlink: int, size: nat, addrs: seq<nat>)

  datatype Fs = Fs(bitmap: seq<Block>, inodes: seq<Dinode>, data: seq<Block>)

  /** Who holds a block.  A lost one is marked, but nobody refers to it. */
  datatype Owner = Free | Meta | Held(inum: nat, k: nat) | Lost

  ghost predicate Wf(sb: Super, fs: Fs) {
    && |fs.data| == sb.size <= |fs.bitmap| * BPB && 0 < sb.nmeta <= sb.size <= WORD_LIMIT
    && (forall i | 0 <= i < |fs.inodes| ::
          && |fs.inodes[i].addrs| == NDIRECT + 1
          && fs.inodes[i].size <= MAXFILE * BSIZE)
    && (forall i, k | 0 <= i < |fs.inodes| && 0 <= k <= NDIRECT :: fs.inodes[i].addrs[k] < sb.size)
  }

  /** The k-th reference of inode i: its addrs[k], or an entry of its indirect block; 0 for none. */
  ghost function Ref(fs: Fs, i: nat, k: nat): nat
    requires i < |fs.inodes| && k < REFS
    requires |fs.inodes[i].addrs| == NDIRECT + 1 && fs.inodes[i].addrs[NDIRECT] < |fs.data|
  {
    if k <= NDIRECT then fs.inodes[i].addrs[k]
    else if fs.inodes[i].addrs[NDIRECT] == 0 then 0
    else WordAt(fs.data[fs.inodes[i].addrs[NDIRECT]], k - NDIRECT - 1)
  }

  /** The reference for file block bn: the first 12 are direct, the rest are entries of the indirect block. */
  function SlotOf(bn: nat): nat {
    if bn < NDIRECT then bn else bn + 1
  }

  /** The bits set in the bitmap are exactly those of the metadata blocks, of the blocks that inodes refer to, and of
      lost ones, and no block is referred to twice.  Entries of the indirect block of inode x below reference hi are
      exempt (itrunc frees them before it drops the indirect block); 0 exempts none. */
  ghost predicate Owns(sb: Super, fs: Fs, own: seq<Owner>, x: nat, hi: nat)
    requires Wf(sb, fs)
  {
    && |own| == sb.size
    && (forall b: nat | b < sb.size :: Used(fs.bitmap, b) == !own[b].Free?)
    && (forall b: nat | b < sb.size :: own[b].Meta? == (b < sb.nmeta))
    && (forall i: nat, k: nat | i < |fs.inodes| && k < REFS && Ref(fs, i, k) != 0 && !(i == x && NDIRECT < k < hi) ::
          Ref(fs, i, k) < sb.size && own[Ref(fs, i, k)] == Held(i, k))
    && (forall b: nat | b < sb.size && own[b].Held? ::
          own[b].inum < |fs.inodes| && own[b].k < REFS && Ref(fs, own[b].inum, own[b].k) == b)
  }

  ghost predicate Inv(sb: Super, fs: Fs, own: seq<Owner>) {
    Wf(sb, fs) && Owns(sb, fs, own, 0, 0)
  }

  ghost predicate NoneLost(own: seq<Owner>) {
    forall b: nat | b < |own| :: !own[b].Lost?
  }

  /** Block ownership: nothing is lost. */
  ghost predicate Owned(sb: Super, fs: Fs) {
    exists own :: Inv(sb, fs, own) && NoneLost(own)
  }

  ghost predicate SameLost(own1: seq<Owner>, own2: seq<Owner>) {
    |own1| == |own2| && forall b: nat | b < |own1| :: own1[b].Lost? == own2[b].Lost?
  }

  ghost predicate Mapped(fs: Fs, i: nat, bn: nat)
    requires i < |fs.inodes| && bn < MAXFILE
    requires |fs.inodes[i].addrs| == NDIRECT + 1 && fs.inodes[i].addrs[NDIRECT] < |fs.data|
  {
    Ref(fs, i, SlotOf(bn)) != 0
  }

  /** The byte of file i at a position, whether or not it is within the file; unmapped blocks read as zero. */
  ghost function ByteAt(fs: Fs, i: nat, pos: nat): Byte
    requires i < |fs.inodes| && pos < MAXFILE * BSIZE
    requires |fs.inodes[i].addrs| == NDIRECT + 1 && fs.inodes[i].addrs[NDIRECT] < |fs.data|
  {
    var a := Ref(fs, i, SlotOf(pos / BSIZE));
    if 0 < a < |fs.data| then fs.data[a][pos % BSIZE] else 0
  }

  // ---- one more reference ------------------------------------------------------------------------

  /** fs2 is fs1 with reference (i, k), which was unused, set to b. */
  ghost predicate RefSet(sb: Super, fs1: Fs, fs2: Fs, i: nat, k: nat, b: nat)
    requires Wf(sb, fs1) && Wf(sb, fs2)
  {
    && |fs1.inodes| == |fs2.inodes| && i < |fs1.inodes| && k < REFS
    && forall j: nat, m: nat {:trigger Ref(fs2, j, m)} {:trigger Ref(fs1, j, m)} | j < |fs1.inodes| && m < REFS ::
         Ref(fs2, j, m) == if j == i && m == k then b else Ref(fs1, j, m)
  }

  lemma OwnsRefSet(sb: Super, fs1: Fs, fs2: Fs, own: seq<Owner>, i: nat, k: nat, b: nat)
    requires Inv(sb, fs1, own) && Wf(sb, fs2) && i < |fs1.inodes| && k < REFS
    requires RefSet(sb, fs1, fs2, i, k, b) && Ref(fs1, i, k) == 0
    requires b < sb.size && own[b].Free? && fs2.bitmap == Mark(fs1.bitmap, b)
    ensures Inv(sb, fs2, own[b := Held(i, k)])
  {
    hide Ref, Mark, Used;
  }

  function SetAddr(d: Dinode, k: nat, b: nat): Dinode
    requires k < |d.addrs|
  {
    Dinode(d.typ, d.major, d.minor, d.nlink, d.size, d.addrs[k := b])
  }

  /** balloc, and a new direct or indirect-block reference to the zeroed block. */
  function AllocSlot(fs: Fs, i: nat, k: nat, b: nat): Fs
    requires i < |fs.inodes| && k < |fs.inodes[i].addrs| && b < |fs.data| && b < |fs.bitmap| * BPB
    requires !Used(fs.bitmap, b)
  {
    Fs(Mark(fs.bitmap, b), fs.inodes[i := SetAddr(fs.inodes[i], k, b)], fs.data[b := Zero()])
  }

  lemma ZeroWords(j: nat)
    requires j < WORDS
    ensures WordAt(Zero(), j) == 0
  {
  }

  lemma AllocSlotWf(sb: Super, fs: Fs, i: nat, k: nat, b: nat)
    requires Wf(sb, fs) && i < |fs.inodes| && k <= NDIRECT && b < sb.size && !Used(fs.bitmap, b)
    ensures Wf(sb, AllocSlot(fs, i, k, b))
  {
    hide Used, Mark, Zero;
  }

  lemma AllocSlotRef(sb: Super, fs: Fs, own: seq<Owner>, i: nat, k: nat, b: nat, j: nat, m: nat)
    requires Inv(sb, fs, own) && i < |fs.inodes| && k <= NDIRECT && Ref(fs, i, k) == 0
    requires b < sb.size && own[b].Free? && j < |fs.inodes| && m < REFS
    requires Wf(sb, AllocSlot(fs, i, k, b))
    ensures Ref(AllocSlot(fs, i, k, b), j, m) == if j == i && m == k then b else Ref(fs, j, m)
  {
    hide WordAt, Mark, Used, Zero;
    assert Ref(fs, j, NDIRECT) != b;
    if m > NDIRECT {
      ZeroWords(m - NDIRECT - 1);
    }
  }

  lemma AllocSlotRefs(sb: Super, fs: Fs, own: seq<Owner>, i: nat, k: nat, b: nat)
    requires Inv(sb, fs, own) && i < |fs.inodes| && k <= NDIRECT && Ref(fs, i, k) == 0
    requires b < sb.size && own[b].Free?
    ensures Wf(sb, AllocSlot(fs, i, k, b)) && RefSet(sb, fs, AllocSlot(fs, i, k, b), i, k, b)
  {
    AllocSlotWf(sb, fs, i, k, b);
    hide Ref, AllocSlot, Mark, Used;
    forall j: nat, m: nat | j < |fs.inodes| && m < REFS
      ensures Ref(AllocSlot(fs, i, k, b), j, m) == if j == i && m == k then b else Ref(fs, j, m)
    {
      AllocSlotRef(sb, fs, own, i, k, b, j, m);
    }
    assert |AllocSlot(fs, i, k, b).inodes| == |fs.inodes| by {
      AllocSlotShape(fs, i, k, b);
    }
  }

  lemma AllocSlotShape(fs: Fs, i: nat, k: nat, b: nat)
    requires i < |fs.inodes| && k < |fs.inodes[i].addrs| && b < |fs.data| && b < |fs.bitmap| * BPB
    requires !Used(fs.bitmap, b)
    ensures |AllocSlot(fs, i, k, b).inodes| == |fs.inodes|
  {
  }

  /** The data blocks with entry j of the indirect block ind set to b. */
  function PutEntry(data: seq<Block>, ind: nat, j: nat, b: nat): (r: seq<Block>)
    requires ind < |data| && j < NINDIRECT && b < WORD_LIMIT
    ensures |r| == |data|
  {
    data[ind := PutWord(data[ind], j, b)]
  }

  /** balloc, and a new entry of the indirect block. */
  function AllocEntry(fs: Fs, i: nat, j: nat, b: nat): Fs
    requires i < |fs.inodes| && |fs.inodes[i].addrs| == NDIRECT + 1 && fs.inodes[i].addrs[NDIRECT] < |fs.data|
    requires j < NINDIRECT && b < |fs.data| <= WORD_LIMIT && b < |fs.bitmap| * BPB && !Used(fs.bitmap, b)
  {
    Fs(Mark(fs.bitmap, b), fs.inodes, PutEntry(fs.data[b := Zero()], fs.inodes[i].addrs[NDIRECT], j, b))
  }

  lemma AllocEntryRefs(sb: Super, fs: Fs, own: seq<Owner>, i: nat, j: nat, b: nat)
    requires Inv(sb, fs, own) && i < |fs.inodes| && j < NINDIRECT
    requires Ref(fs, i, NDIRECT) != 0 && Ref(fs, i, NDIRECT + 1 + j) == 0
    requires b < sb.size && own[b].Free?
    ensures Wf(sb, AllocEntry(fs, i, j, b)) && RefSet(sb, fs, AllocEntry(fs, i, j, b), i, NDIRECT + 1 + j, b)
  {
    hide WordAt, Mark, PutWord;
    var fs2 := AllocEntry(fs, i, j, b);
    var ind := fs.inodes[i].addrs[NDIRECT];
    assert Ref(fs, i, NDIRECT) == ind;
    forall x: nat, m: nat | x < |fs.inodes| && m < REFS
      ensures Ref(fs2, x, m) == if x == i && m == NDIRECT + 1 + j then b else Ref(fs, x, m)
    {
      if m > NDIRECT {
        assert Ref(fs, x, NDIRECT) != b;
        assert x != i && Ref(fs, x, NDIRECT) != 0 ==> Ref(fs, x, NDIRECT) != ind;
      }
    }
  }

  // ---- the bytes of the files ---------------------------------------------------------------------

  /** Every file keeps its bytes, inside and beyond its size. */
  ghost predicate SameBytes(sb: Super, fs1: Fs, fs2: Fs)
    requires Wf(sb, fs1) && Wf(sb, fs2)
  {
    && |fs1.inodes| == |fs2.inodes|
    && forall j: nat, pos: nat | j < |fs1.inodes| && pos < MAXFILE * BSIZE :: ByteAt(fs2, j, pos) == ByteAt(fs1, j, pos)
  }

  /** A new reference to a zeroed block changes no byte of any file. */
  lemma AllocBytes(sb: Super, fs1: Fs, fs2: Fs, own: seq<Owner>, i: nat, k: nat, b: nat)
    requires Inv(sb, fs1, own) && Wf(sb, fs2) && i < |fs1.inodes| && k < REFS
    requires RefSet(sb, fs1, fs2, i, k, b) && Ref(fs1, i, k) == 0
    requires b < sb.size && own[b].Free? && fs2.data[b] == Zero()
    requires forall x: nat | x < sb.size && x != b && x != Ref(fs1, i, NDIRECT) :: fs2.data[x] == fs1.data[x]
    ensures SameBytes(sb, fs1, fs2)
  {
    forall j: nat, pos: nat | j < |fs1.inodes| && pos < MAXFILE * BSIZE
      ensures ByteAt(fs2, j, pos) == ByteAt(fs1, j, pos)
    {
      hide Ref, Used;
      var m := SlotOf(pos / BSIZE);
      assert Ref(fs1, j, m) != 0 ==> own[Ref(fs1, j, m)] == Held(j, m);
      assert Ref(fs1, i, NDIRECT) != 0 ==> own[Ref(fs1, i, NDIRECT)] == Held(i, NDIRECT);
      assert Ref(fs2, j, m) == if j == i && m == k then b else Ref(fs1, j, m);
    }
  }

  /** A file block is rewritten: its references stay, and only the bytes of that block of that file change. */
  lemma WriteBytes(sb: Super, fs1: Fs, fs2: Fs, own: seq<Owner>, i: nat, bn: nat, blk: Block)
    requires Inv(sb, fs1, own) && i < |fs1.inodes| && bn < MAXFILE && Mapped(fs1, i, bn)
    requires fs2 == Fs(fs1.bitmap, fs1.inodes, fs1.data[Ref(fs1, i, SlotOf(bn)) := blk])
    ensures Inv(sb, fs2, own)
    ensures forall j: nat, m: nat {:trigger Ref(fs2, j, m)} | j < |fs1.inodes| && m < REFS ::
              Ref(fs2, j, m) == Ref(fs1, j, m)
    ensures forall j: nat, pos: nat {:trigger ByteAt(fs2, j, pos)} | j < |fs1.inodes| && pos < MAXFILE * BSIZE ::
              ByteAt(fs2, j, pos) == if j == i && pos / BSIZE == bn then blk[pos % BSIZE] else ByteAt(fs1, j, pos)
  {
    WriteRefs(sb, fs1, fs2, own, i, SlotOf(bn), blk);
    forall j: nat, pos: nat | j < |fs1.inodes| && pos < MAXFILE * BSIZE
      ensures ByteAt(fs2, j, pos) == if j == i && pos / BSIZE == bn then blk[pos % BSIZE] else ByteAt(fs1, j, pos)
    {
      hide Ref, Used;
      var m := SlotOf(pos / BSIZE);
      assert Ref(fs1, j, m) != 0 ==> own[Ref(fs1, j, m)] == Held(j, m);
      assert Ref(fs2, j, m) == Ref(fs1, j, m);
    }
  }

  lemma WriteRefs(sb: Super, fs1: Fs, fs2: Fs, own: seq<Owner>, i: nat, k: nat, blk: Block)
    requires Inv(sb, fs1, own) && i < |fs1.inodes| && k < REFS && k != NDIRECT && Ref(fs1, i, k) != 0
    requires fs2 == Fs(fs1.bitmap, fs1.inodes, fs1.data[Ref(fs1, i, k) := blk])
    ensures Inv(sb, fs2, own)
    ensures forall j: nat, m: nat {:trigger Ref(fs2, j, m)} | j < |fs1.inodes| && m < REFS ::
              Ref(fs2, j, m) == Ref(fs1, j, m)
  {
    forall j: nat, m: nat | j < |fs1.inodes| && m < REFS ensures Ref(fs2, j, m) == Ref(fs1, j, m) {
      hide WordAt, Used;
      assert Ref(fs1, j, NDIRECT) != 0 ==> own[Ref(fs1, j, NDIRECT)] == Held(j, NDIRECT);
    }
    assert Owns(sb, fs2, own, 0, 0) by {
      hide Ref, Used;
    }
  }

  /** The bytes from off up to off + n of file i. */
  ghost function Slice(fs: Fs, i: nat, off: nat, n: nat): (r: seq<Byte>)
    requires i < |fs.inodes| && off + n <= MAXFILE * BSIZE
    requires |fs.inodes[i].addrs| == NDIRECT + 1 && fs.inodes[i].addrs[NDIRECT] < |fs.data|
    ensures |r| == n && forall p: nat | p < n :: r[p] == ByteAt(fs, i, off + p)
  {
    if n == 0 then [] else Slice(fs, i, off, n - 1) + [ByteAt(fs, i, off + n - 1)]
  }

  /** A file is the sequence of its first `size` bytes. */
  ghost function Contents(fs: Fs, i: nat): (r: seq<Byte>)
    requires i < |fs.inodes| && fs.inodes[i].size <= MAXFILE * BSIZE
    requires |fs.inodes[i].addrs| == NDIRECT + 1 && fs.inodes[i].addrs[NDIRECT] < |fs.data|
    ensures |r| == fs.inodes[i].size
  {
    Slice(fs, i, 0, fs.inodes[i].size)
  }

  /** All the bytes that the file has blocks for, and zeros where it has none. */
  ghost function AllBytes(fs: Fs, i: nat): (r: seq<Byte>)
    requires i < |fs.inodes|
    requires |fs.inodes[i].addrs| == NDIRECT + 1 && fs.inodes[i].addrs[NDIRECT] < |fs.data|
    ensures |r| == MAXFILE * BSIZE
  {
    Slice(fs, i, 0, MAXFILE * BSIZE)
  }

  /** Every block index below the file size is mapped. */
  ghost predicate NoHole(fs: Fs, i: nat)
    requires i < |fs.inodes| && fs.inodes[i].size <= MAXFILE * BSIZE
    requires |fs.inodes[i].addrs| == NDIRECT + 1 && fs.inodes[i].addrs[NDIRECT] < |fs.data|
  {
    forall bn: nat | bn * BSIZE < fs.inodes[i].size :: Mapped(fs, i, bn)
  }

  // ---- the effect of the operations on one inode ---------------------------------------------------

  /** From fs1 to fs2 inode i may have gained blocks; nothing else about any inode changed. */
  ghost predicate Grown(sb: Super, fs1: Fs, fs2: Fs, i: nat)
    requires Wf(sb, fs1) && Wf(sb, fs2)
  {
    && |fs1.inodes| == |fs2.inodes| && i < |fs1.inodes|
    && fs2.inodes == fs1.inodes[i := fs1.inodes[i].(addrs := fs2.inodes[i].addrs)]
    && forall j: nat, m: nat {:trigger Ref(fs2, j, m)} {:trigger Ref(fs1, j, m)} | j < |fs1.inodes| && m < REFS ::
         j != i || Ref(fs1, j, m) != 0 ==> Ref(fs2, j, m) == Ref(fs1, j, m)
  }

  /** From fs1 to fs2 file i has src at off; no other byte of any file changed. */
  ghost predicate Patched(sb: Super, fs1: Fs, fs2: Fs, i: nat, off: nat, src: seq<Byte>)
    requires Wf(sb, fs1) && Wf(sb, fs2)
  {
    && |fs1.inodes| == |fs2.inodes|
    && forall j: nat, pos: nat {:trigger ByteAt(fs2, j, pos)} | j < |fs1.inodes| && pos < MAXFILE * BSIZE ::
         ByteAt(fs2, j, pos) == if j == i && off <= pos < off + |src| then src[pos - off] else ByteAt(fs1, j, pos)
  }

  /** A block with bytes put in at o. */
  function Splice(blk: Block, o: nat, part: seq<Byte>): (r: Block)
    requires o + |part| <= BSIZE
    ensures forall p: nat | p < BSIZE :: r[p] == if o <= p < o + |part| then part[p - o] else blk[p]
  {
    blk[..o] + part + blk[o + |part|..]
  }

  /** One round of the write loop: bmap, then the part of the source that falls into this block. */
  lemma PatchStep(sb: Super, fs0: Fs, fs1: Fs, fs2: Fs, fs3: Fs, own: seq<Owner>, i: nat, off: nat,
                  src: seq<Byte>, tot: nat, m: nat)
    requires Wf(sb, fs0) && Inv(sb, fs2, own) && i < |fs0.inodes| && Wf(sb, fs1)
    requires tot + m <= |src| && off + |src| <= MAXFILE * BSIZE && 0 < m && (off + tot) % BSIZE + m <= BSIZE
    requires Grown(sb, fs0, fs1, i) && Patched(sb, fs0, fs1, i, off, src[..tot])
    requires Grown(sb, fs1, fs2, i) && SameBytes(sb, fs1, fs2) && Mapped(fs2, i, (off + tot) / BSIZE)
    requires var a := Ref(fs2, i, SlotOf((off + tot) / BSIZE));
             a < sb.size && fs3 == Fs(fs2.bitmap, fs2.inodes,
                                      fs2.data[a := Splice(fs2.data[a], (off + tot) % BSIZE, src[tot..tot + m])])
    ensures Inv(sb, fs3, own) && Grown(sb, fs0, fs3, i) && Patched(sb, fs0, fs3, i, off, src[..tot + m])
    ensures forall k: nat | k < REFS :: Ref(fs3, i, k) == Ref(fs2, i, k)
  {
    var bn := (off + tot) / BSIZE;
    var a := Ref(fs2, i, SlotOf(bn));
    var blk := Splice(fs2.data[a], (off + tot) % BSIZE, src[tot..tot + m]);
    WriteBytes(sb, fs2, fs3, own, i, bn, blk);
    hide Ref, Used, Owns, Splice;
    forall j: nat, pos: nat | j < |fs0.inodes| && pos < MAXFILE * BSIZE
      ensures ByteAt(fs3, j, pos) ==
                if j == i && off <= pos < off + (tot + m) then src[pos - off] else ByteAt(fs0, j, pos)
    {
      assert ByteAt(fs2, j, pos) == ByteAt(fs1, j, pos);
      if j == i && pos / BSIZE == bn {
        assert ByteAt(fs2, i, pos) == fs2.data[a][pos % BSIZE];
      }
    }
  }

  /** The inode changes in anything but its references: bytes and ownership stay. */
  lemma Resize(sb: Super, fs1: Fs, fs2: Fs, own: seq<Owner>, i: nat, d: Dinode)
    requires Inv(sb, fs1, own) && i < |fs1.inodes| && d.size <= MAXFILE * BSIZE && d.addrs == fs1.inodes[i].addrs
    requires fs2 == Fs(fs1.bitmap, fs1.inodes[i := d], fs1.data)
    ensures Inv(sb, fs2, own) && SameBytes(sb, fs1, fs2)
    ensures forall j: nat, m: nat {:trigger Ref(fs2, j, m)} | j < |fs1.inodes| && m < REFS ::
              Ref(fs2, j, m) == Ref(fs1, j, m)
  {
    forall j: nat, m: nat | j < |fs1.inodes| && m < REFS ensures Ref(fs2, j, m) == Ref(fs1, j, m) {
      hide WordAt, Used;
    }
    hide Ref, Used;
  }

  /** A byte sequence with src written at off, extended when src reaches beyond its end. */
  function Replace(c: seq<Byte>, off: nat, src: seq<Byte>): (r: seq<Byte>)
    requires off <= |c|
    ensures |r| == if off + |src| < |c| then |c| else off + |src|
    ensures forall p: nat | p < |r| :: r[p] == if off <= p < off + |src| then src[p - off] else c[p]
  {
    c[..off] + src + (if off + |src| < |c| then c[off + |src|..] else [])
  }

  /** Inode j refers to the same blocks. */
  ghost predicate RefsKept(fs1: Fs, fs2: Fs, j: nat)
    requires j < |fs1.inodes| && |fs1.inodes[j].addrs| == NDIRECT + 1 && fs1.inodes[j].addrs[NDIRECT] < |fs1.data|
    requires j < |fs2.inodes| && |fs2.inodes[j].addrs| == NDIRECT + 1 && fs2.inodes[j].addrs[NDIRECT] < |fs2.data|
  {
    forall m: nat | m < REFS :: Ref(fs2, j, m) == Ref(fs1, j, m)
  }

  /** No inode other than i changed, and neither did its contents. */
  ghost predicate OthersKept(sb: Super, fs1: Fs, fs2: Fs, i: nat)
    requires Wf(sb, fs1) && Wf(sb, fs2)
  {
    && |fs1.inodes| == |fs2.inodes|
    && forall j: nat | j < |fs1.inodes| && j != i ::
         && fs2.inodes[j] == fs1.inodes[j] && Contents(fs2, j) == Contents(fs1, j)
         && AllBytes(fs2, j) == AllBytes(fs1, j)
         && (NoHole(fs1, j) ==> NoHole(fs2, j)) && RefsKept(fs1, fs2, j)
  }

  lemma OthersKeptTwice(sb: Super, fs1: Fs, fs2: Fs, fs3: Fs, i: nat)
    requires Wf(sb, fs1) && Wf(sb, fs2) && Wf(sb, fs3)
    requires OthersKept(sb, fs1, fs2, i) && OthersKept(sb, fs2, fs3, i)
    ensures OthersKept(sb, fs1, fs3, i)
  {
    hide Contents, NoHole;
  }

  lemma OthersKeptSelf(sb: Super, fs: Fs, i: nat)
    requires Wf(sb, fs)
    ensures OthersKept(sb, fs, fs, i)
  {
    hide Contents, NoHole;
  }

  /** Bytes with src in place of those at off. */
  function Patch(c: seq<Byte>, off: nat, src: seq<Byte>): (r: seq<Byte>)
    requires off + |src| <= |c|
    ensures |r| == |c| && forall p: nat | p < |r| :: r[p] == if off <= p < off + |src| then src[p - off] else c[p]
  {
    c[..off] + src + c[off + |src|..]
  }

  lemma PatchedBytes(sb: Super, fs1: Fs, fs2: Fs, i: nat, off: nat, src: seq<Byte>)
    requires Wf(sb, fs1) && Wf(sb, fs2) && i < |fs1.inodes| && off + |src| <= MAXFILE * BSIZE
    requires Patched(sb, fs1, fs2, i, off, src)
    ensures AllBytes(fs2, i) == Patch(AllBytes(fs1, i), off, src)
  {
    hide Ref, ByteAt, Slice, Patch;
  }

  lemma PatchedContents(sb: Super, fs1: Fs, fs2: Fs, i: nat, off: nat, src: seq<Byte>)
    requires Wf(sb, fs1) && Wf(sb, fs2) && i < |fs1.inodes| && off <= fs1.inodes[i].size
    requires off + |src| <= MAXFILE * BSIZE
    requires Patched(sb, fs1, fs2, i, off, src)
    requires fs2.inodes[i].size == if off + |src| < fs1.inodes[i].size then fs1.inodes[i].size else off + |src|
    ensures Contents(fs2, i) == Replace(Contents(fs1, i), off, src)
  {
    hide Ref, ByteAt, Slice, Replace;
  }

  lemma SameContents(sb: Super, fs1: Fs, fs2: Fs, i: nat)
    requires Wf(sb, fs1) && Wf(sb, fs2) && |fs1.inodes| == |fs2.inodes|
    requires forall j: nat | j < |fs1.inodes| && j != i :: fs2.inodes[j] == fs1.inodes[j]
    requires forall j: nat, pos: nat | j < |fs1.inodes| && j != i && pos < MAXFILE * BSIZE ::
               ByteAt(fs2, j, pos) == ByteAt(fs1, j, pos)
    requires forall j: nat, m: nat {:trigger Ref(fs2, j, m)} | j < |fs1.inodes| && m < REFS && j != i ::
               Ref(fs2, j, m) == Ref(fs1, j, m)
    ensures OthersKept(sb, fs1, fs2, i)
  {
    forall j: nat | j < |fs1.inodes| && j != i
      ensures Contents(fs2, j) == Contents(fs1, j) && AllBytes(fs2, j) == AllBytes(fs1, j)
      ensures NoHole(fs1, j) ==> NoHole(fs2, j)
    {
      hide Ref, ByteAt, Slice;
      if NoHole(fs1, j) {
        forall bn: nat | bn * BSIZE < fs2.inodes[j].size ensures Mapped(fs2, j, bn) {
          assert Mapped(fs1, j, bn);
        }
      }
    }
  }

  // ---- allocation, all in one -----------------------------------------------------------------------

  /** From fs1 to fs2 inode i may have gained blocks; ownership holds before and after, and no byte changed. */
  ghost predicate Extended(sb: Super, fs1: Fs, own1: seq<Owner>, fs2: Fs, own2: seq<Owner>, i: nat) {
    && Inv(sb, fs1, own1) && Inv(sb, fs2, own2) && SameLost(own1, own2)
    && Grown(sb, fs1, fs2, i) && SameBytes(sb, fs1, fs2)
  }

  lemma ExtendedTwice(sb: Super, fs1: Fs, own1: seq<Owner>, fs2: Fs, own2: seq<Owner>, fs3: Fs, own3: seq<Owner>,
                      i: nat)
    requires Extended(sb, fs1, own1, fs2, own2, i) && Extended(sb, fs2, own2, fs3, own3, i)
    ensures Extended(sb, fs1, own1, fs3, own3, i) && Inv(sb, fs3, own3)
  {
    hide Ref, Owns, ByteAt;
  }

  lemma ExtendedLost(sb: Super, fs1: Fs, own1: seq<Owner>, fs2: Fs, own2: seq<Owner>, i: nat)
    requires Extended(sb, fs1, own1, fs2, own2, i)
    ensures SameLost(own1, own2)
  {
  }

  lemma SameLostTwice(own1: seq<Owner>, own2: seq<Owner>, own3: seq<Owner>)
    requires SameLost(own1, own2) && SameLost(own2, own3)
    ensures SameLost(own1, own3)
  {
  }

  lemma ExtendedSelf(sb: Super, fs: Fs, own: seq<Owner>, i: nat)
    requires Inv(sb, fs, own) && i < |fs.inodes|
    ensures Extended(sb, fs, own, fs, own, i)
  {
    hide Ref, Owns, ByteAt;
  }

  lemma AddSlot(sb: Super, fs: Fs, own: seq<Owner>, i: nat, k: nat, b: nat)
    requires Inv(sb, fs, own) && i < |fs.inodes| && k <= NDIRECT && Ref(fs, i, k) == 0
    requires b < sb.size && !Used(fs.bitmap, b)
    ensures own[b].Free? && b != 0
    ensures Extended(sb, fs, own, AllocSlot(fs, i, k, b), own[b := Held(i, k)], i)
    ensures Inv(sb, AllocSlot(fs, i, k, b), own[b := Held(i, k)])
    ensures forall m: nat | m < REFS :: Ref(AllocSlot(fs, i, k, b), i, m) == if m == k then b else Ref(fs, i, m)
  {
    AllocSlotRefs(sb, fs, own, i, k, b);
    var fs2 := AllocSlot(fs, i, k, b);
    OwnsRefSet(sb, fs, fs2, own, i, k, b);
    AllocBytes(sb, fs, fs2, own, i, k, b);
    assert fs2.inodes == fs.inodes[i := fs.inodes[i].(addrs := fs2.inodes[i].addrs)];
    hide Ref, Used, Mark, AllocSlot, Owns, Wf, ByteAt;
  }

  lemma AddEntry(sb: Super, fs: Fs, own: seq<Owner>, i: nat, j: nat, b: nat)
    requires Inv(sb, fs, own) && i < |fs.inodes| && j < NINDIRECT
    requires Ref(fs, i, NDIRECT) != 0 && Ref(fs, i, NDIRECT + 1 + j) == 0
    requires b < sb.size && !Used(fs.bitmap, b)
    ensures own[b].Free? && b != 0
    ensures Extended(sb, fs, own, AllocEntry(fs, i, j, b), own[b := Held(i, NDIRECT + 1 + j)], i)
    ensures Inv(sb, AllocEntry(fs, i, j, b), own[b := Held(i, NDIRECT + 1 + j)])
    ensures forall m: nat | m < REFS ::
              Ref(AllocEntry(fs, i, j, b), i, m) == if m == NDIRECT + 1 + j then b else Ref(fs, i, m)
  {
    AllocEntryRefs(sb, fs, own, i, j, b);
    var fs2 := AllocEntry(fs, i, j, b);
    OwnsRefSet(sb, fs, fs2, own, i, NDIRECT + 1 + j, b);
    assert own[Ref(fs, i, NDIRECT)] == Held(i, NDIRECT);
    AllocBytes(sb, fs, fs2, own, i, NDIRECT + 1 + j, b);
    assert fs2.inodes == fs.inodes[i := fs.inodes[i].(addrs := fs2.inodes[i].addrs)];
    hide Ref, Used, Mark, AllocEntry, Owns, Wf, ByteAt;
  }

  lemma Bounds(sb: Super, fs: Fs, own: seq<Owner>, i: nat)
    requires Inv(sb, fs, own) && i < |fs.inodes|
    ensures |fs.data| == |own| == sb.size <= |fs.bitmap| * BPB && sb.size <= WORD_LIMIT
    ensures |fs.inodes[i].addrs| == NDIRECT + 1 && fs.inodes[i].size <= MAXFILE * BSIZE
    ensures fs.inodes[i].addrs[NDIRECT] < sb.size
    ensures forall k: nat | k < REFS :: Ref(fs, i, k) < sb.size
  {
    hide Ref, Used;
  }

  lemma SizeKept(sb: Super, fs1: Fs, own1: seq<Owner>, fs2: Fs, own2: seq<Owner>, i: nat)
    requires Extended(sb, fs1, own1, fs2, own2, i)
    ensures i < |fs1.inodes| == |fs2.inodes| && fs2.inodes[i].size == fs1.inodes[i].size
  {
    hide Ref, Owns, ByteAt;
  }

  /** n bytes from off on. */
  ghost function SliceOf(sb: Super, fs: Fs, i: nat, off: nat, n: nat): seq<Byte> {
    if Wf(sb, fs) && i < |fs.inodes| && off + n <= MAXFILE * BSIZE then Slice(fs, i, off, n) else []
  }

  lemma SliceIs(sb: Super, fs: Fs, own: seq<Owner>, fs2: Fs, own2: seq<Owner>, i: nat, off: nat, part: seq<Byte>)
    requires Extended(sb, fs, own, fs2, own2, i) && off + |part| <= MAXFILE * BSIZE
    requires forall p: nat | off <= p < off + |part| :: part[p - off] == ByteAt(fs, i, p)
    ensures part == SliceOf(sb, fs, i, off, |part|)
  {
    hide ByteAt, Ref, Owns;
  }

  lemma SliceMore(sb: Super, fs: Fs, own: seq<Owner>, i: nat, off: nat, n: nat, m: nat)
    requires Inv(sb, fs, own) && i < |fs.inodes| && off + n + m <= MAXFILE * BSIZE
    ensures SliceOf(sb, fs, i, off, n + m) == SliceOf(sb, fs, i, off, n) + SliceOf(sb, fs, i, off + n, m)
    ensures SliceOf(sb, fs, i, off, 0) == []
  {
    hide ByteAt, Owns;
    var a, b, c := Slice(fs, i, off, n + m), Slice(fs, i, off, n), Slice(fs, i, off + n, m);
    forall p: nat | p < n + m ensures a[p] == (b + c)[p] {
      assert p >= n ==> c[p - n] == ByteAt(fs, i, off + n + (p - n));
    }
  }

  lemma SliceContents(sb: Super, fs: Fs, own: seq<Owner>, i: nat, off: nat, last: nat)
    requires Inv(sb, fs, own) && i < |fs.inodes| && off <= last <= fs.inodes[i].size
    ensures SliceOf(sb, fs, i, off, last - off) == Contents(fs, i)[off..last]
  {
    hide ByteAt, Owns;
  }

  /** The part of a block that one round of the read loop copies. */
  lemma ReadStep(sb: Super, fs1: Fs, own1: seq<Owner>, fs2: Fs, own2: seq<Owner>, i: nat, pos: nat, m: nat, addr: nat)
    requires Extended(sb, fs1, own1, fs2, own2, i) && pos + m <= MAXFILE * BSIZE && pos % BSIZE + m <= BSIZE && 0 < m
    requires 0 < addr < sb.size && Ref(fs2, i, SlotOf(pos / BSIZE)) == addr
    ensures fs2.inodes[i].size == fs1.inodes[i].size
    ensures forall p: nat | pos <= p < pos + m :: fs2.data[addr][p - pos + pos % BSIZE] == ByteAt(fs1, i, p)
  {
    hide Ref, Owns;
    forall p: nat | pos <= p < pos + m ensures fs2.data[addr][p - pos + pos % BSIZE] == ByteAt(fs1, i, p) {
      assert p / BSIZE == pos / BSIZE && p % BSIZE == p - pos + pos % BSIZE;
      assert ByteAt(fs2, i, p) == ByteAt(fs1, i, p);
    }
  }

  // ---- the write loop -------------------------------------------------------------------------------

  /** How many file blocks the bytes off .. off + n touch. */
  function Span(off: nat, n: nat): nat {
    if n == 0 then 0 else (off + n - 1) / BSIZE - off / BSIZE + 1
  }

  /** How many blocks writing them logs, beside those for the indirect block and the inode: the data block and a
      bitmap block each, but no bitmap block for a first block that an unaligned write finds already mapped. */
  function Cost(off: nat, n: nat, noHole: bool): nat {
    2 * Span(off, n) - if noHole && off % BSIZE != 0 && n > 0 then 1 else 0
  }

  /** The write loop has put the first tot bytes of src at off of file i. */
  ghost predicate Writing(sb: Super, fs0: Fs, fs: Fs, own: seq<Owner>, i: nat, off: nat, src: seq<Byte>, tot: nat) {
    && Wf(sb, fs0) && Inv(sb, fs, own) && i < |fs0.inodes|
    && tot <= |src| && off + |src| <= MAXFILE * BSIZE
    && Grown(sb, fs0, fs, i) && Patched(sb, fs0, fs, i, off, src[..tot])
    && forall bn: nat | off / BSIZE <= bn < off / BSIZE + Span(off, tot) :: Mapped(fs, i, bn)
  }

  lemma WritingStart(sb: Super, fs: Fs, own: seq<Owner>, i: nat, off: nat, src: seq<Byte>)
    requires Inv(sb, fs, own) && i < |fs.inodes| && off + |src| <= MAXFILE * BSIZE
    ensures Writing(sb, fs, fs, own, i, off, src, 0)
  {
    hide Ref, Owns, ByteAt;
  }

  /** Under the no-hole condition the loop finds mapped every block that starts below the old size, and in
      particular the first block of an unaligned write. */
  lemma WritingMapped(sb: Super, fs0: Fs, fs: Fs, own: seq<Owner>, i: nat, off: nat, src: seq<Byte>, tot: nat)
    requires Writing(sb, fs0, fs, own, i, off, src, tot) && NoHole(fs0, i) && tot < |src| && off <= fs0.inodes[i].size
    ensures off + |src| <= fs0.inodes[i].size || (tot == 0 && off % BSIZE != 0) ==> Mapped(fs, i, (off + tot) / BSIZE)
  {
    hide Ref, Owns, ByteAt;
    if off + |src| <= fs0.inodes[i].size || (tot == 0 && off % BSIZE != 0) {
      assert Mapped(fs0, i, (off + tot) / BSIZE);
    }
  }

  lemma CostStep(off: nat, tot: nat, next: nat, noHole: bool, mapped: bool)
    requires tot < next && Span(off, next) == Span(off, tot) + 1
    requires noHole && tot == 0 && off % BSIZE != 0 ==> mapped
    ensures Cost(off, next, noHole) >= Cost(off, tot, noHole) + if mapped then 1 else 2
  {
  }

  lemma SpanNone(off: nat)
    ensures Span(off, 0) == 0
  {
  }

  lemma SpanStep(off: nat, tot: nat, m: nat)
    requires 0 < m && (off + tot) % BSIZE + m <= BSIZE && (tot == 0 || (off + tot) % BSIZE == 0)
    ensures Span(off, tot + m) == Span(off, tot) + 1
    ensures off / BSIZE + Span(off, tot) == (off + tot) / BSIZE
  {
  }

  lemma WritingStep(sb: Super, fs0: Fs, fs1: Fs, own1: seq<Owner>, fs2: Fs, own2: seq<Owner>, fs3: Fs, i: nat,
                    off: nat, src: seq<Byte>, tot: nat, m: nat, addr: nat)
    requires Writing(sb, fs0, fs1, own1, i, off, src, tot) && Extended(sb, fs1, own1, fs2, own2, i)
    requires tot + m <= |src| && 0 < m && (off + tot) % BSIZE + m <= BSIZE && (tot == 0 || (off + tot) % BSIZE == 0)
    requires 0 < addr < sb.size && addr == Ref(fs2, i, SlotOf((off + tot) / BSIZE))
    requires fs3 == Fs(fs2.bitmap, fs2.inodes,
                       fs2.data[addr := Splice(fs2.data[addr], (off + tot) % BSIZE, src[tot..tot + m])])
    ensures Writing(sb, fs0, fs3, own2, i, off, src, tot + m)
    ensures forall k: nat | k < REFS :: Ref(fs3, i, k) == Ref(fs2, i, k)
  {
    hide Ref, Owns, Patched, SameBytes, Span, Splice;
    PatchStep(sb, fs0, fs1, fs2, fs3, own2, i, off, src, tot, m);
    SpanStep(off, tot, m);
    forall bn: nat | off / BSIZE <= bn < off / BSIZE + Span(off, tot + m) ensures Mapped(fs3, i, bn) {
      if bn < off / BSIZE + Span(off, tot) {
        assert Mapped(fs1, i, bn);
      }
    }
  }

  lemma WritingInv(sb: Super, fs0: Fs, fs: Fs, own: seq<Owner>, i: nat, off: nat, src: seq<Byte>, tot: nat)
    requires Writing(sb, fs0, fs, own, i, off, src, tot)
    ensures Inv(sb, fs, own) && i < |fs.inodes| && fs.inodes[i] == fs0.inodes[i].(addrs := fs.inodes[i].addrs)
  {
  }

  /** After the write loop fs1 is as fs0 with src at off; fs2 is fs1 with the size brought up to date. */
  lemma WritingDone(sb: Super, fs0: Fs, fs1: Fs, fs2: Fs, own: seq<Owner>, i: nat, off: nat, src: seq<Byte>)
    requires Writing(sb, fs0, fs1, own, i, off, src, |src|) && off <= fs0.inodes[i].size
    requires Inv(sb, fs2, own)
    requires var size := if off + |src| > fs0.inodes[i].size then off + |src| else fs0.inodes[i].size;
             fs2 == Fs(fs1.bitmap, fs1.inodes[i := fs1.inodes[i].(size := size)], fs1.data)
    ensures Contents(fs2, i) == Replace(Contents(fs0, i), off, src)
    ensures AllBytes(fs2, i) == Patch(AllBytes(fs0, i), off, src)
    ensures OthersKept(sb, fs0, fs2, i) && (NoHole(fs0, i) ==> NoHole(fs2, i))
  {
    assert src[..|src|] == src;
    Resize(sb, fs1, fs2, own, i, fs2.inodes[i]);
    assert Patched(sb, fs0, fs2, i, off, src) by { hide Ref, Owns, ByteAt; }
    PatchedContents(sb, fs0, fs2, i, off, src);
    PatchedBytes(sb, fs0, fs2, i, off, src);
    SameContents(sb, fs0, fs2, i) by { hide Ref, Owns, ByteAt; }
    if NoHole(fs0, i) {
      hide Ref, Owns, ByteAt;
      forall bn: nat | bn * BSIZE < fs2.inodes[i].size ensures Mapped(fs2, i, bn) {
        if bn * BSIZE < fs0.inodes[i].size {
          assert Mapped(fs0, i, bn);
        } else {
          assert Mapped(fs1, i, bn);
        }
      }
    }
  }

  /** Before the size is brought up to date the other files are as they were, and file i has src among its bytes. */
  lemma WritingKeeps(sb: Super, fs0: Fs, fs: Fs, own: seq<Owner>, i: nat, off: nat, src: seq<Byte>)
    requires Writing(sb, fs0, fs, own, i, off, src, |src|)
    ensures Wf(sb, fs0) && Inv(sb, fs, own) && OthersKept(sb, fs0, fs, i) && Grown(sb, fs0, fs, i)
    ensures AllBytes(fs, i) == Patch(AllBytes(fs0, i), off, src)
  {
    assert src[..|src|] == src;
    PatchedBytes(sb, fs0, fs, i, off, src) by { hide Ref, Owns, ByteAt; }
    SameContents(sb, fs0, fs, i) by { hide Ref, Owns, ByteAt; }
  }

  lemma GrownAddrs(sb: Super, fs1: Fs, fs2: Fs, i: nat)
    requires Wf(sb, fs1) && Wf(sb, fs2) && Grown(sb, fs1, fs2, i)
    ensures fs2.inodes[i] == fs1.inodes[i].(addrs := fs2.inodes[i].addrs)
    ensures forall k: nat | k <= NDIRECT :: fs1.inodes[i].addrs[k] != 0 ==>
              fs2.inodes[i].addrs[k] == fs1.inodes[i].addrs[k]
  {
    forall k: nat | k <= NDIRECT
      ensures fs1.inodes[i].addrs[k] != 0 ==> fs2.inodes[i].addrs[k] == fs1.inodes[i].addrs[k] {
      assert Ref(fs1, i, k) == fs1.inodes[i].addrs[k] && Ref(fs2, i, k) == fs2.inodes[i].addrs[k];
    }
  }

  lemma WritingAddrsKept(sb: Super, fs0: Fs, fs: Fs, own: seq<Owner>, i: nat, off: nat, src: seq<Byte>)
    requires Writing(sb, fs0, fs, own, i, off, src, |src|)
    ensures i < |fs0.inodes| && i < |fs.inodes| && |fs0.inodes[i].addrs| == |fs.inodes[i].addrs| == NDIRECT + 1
    ensures forall k: nat | k <= NDIRECT :: fs0.inodes[i].addrs[k] != 0 ==>
              fs.inodes[i].addrs[k] == fs0.inodes[i].addrs[k]
  {
    hide Owns, ByteAt, Ref;
    GrownAddrs(sb, fs0, fs, i);
  }

  /** And so it is with reads. */
  lemma ExtendedKeeps(sb: Super, fs1: Fs, own1: seq<Owner>, fs2: Fs, own2: seq<Owner>, i: nat)
    requires Extended(sb, fs1, own1, fs2, own2, i)
    ensures Wf(sb, fs1) && Inv(sb, fs2, own2) && OthersKept(sb, fs1, fs2, i) && Grown(sb, fs1, fs2, i)
    ensures AllBytes(fs2, i) == AllBytes(fs1, i) && SameLost(own1, own2)
  {
    hide Owns;
    SameContents(sb, fs1, fs2, i) by { hide Ref, ByteAt; }
    hide Ref, ByteAt;
  }

  // ---- truncation -----------------------------------------------------------------------------------

  /** itrunc has dropped the direct references below n of inode i, and freed (but not cleared) the entries of its
      indirect block below reference hi; the owners have changed exactly for those. */
  ghost predicate Truncating(sb: Super, fs0: Fs, own0: seq<Owner>, fs: Fs, own: seq<Owner>, i: nat, n: nat, hi: nat) {
    && Inv(sb, fs0, own0) && i < |fs0.inodes| && Wf(sb, fs) && Owns(sb, fs, own, i, hi)
    && n <= NDIRECT && hi <= REFS
    && fs.data == fs0.data && |fs.inodes| == |fs0.inodes|
    && fs.inodes == fs0.inodes[i := fs0.inodes[i].(addrs := fs.inodes[i].addrs)]
    && (forall k: nat | k <= NDIRECT :: fs.inodes[i].addrs[k] == if k < n then 0 else fs0.inodes[i].addrs[k])
    && Released(own0, own, i, n, hi)
  }

  /** The blocks of inode i at direct references below n and at entries below hi have become free, and no others. */
  ghost predicate Released(own0: seq<Owner>, own: seq<Owner>, i: nat, n: nat, hi: nat) {
    && |own| == |own0|
    && forall b: nat | b < |own| ::
         own[b] == if own0[b].Held? && own0[b].inum == i && (own0[b].k < n || NDIRECT < own0[b].k < hi)
                   then Free else own0[b]
  }

  /** Reference (i, k) is the next to be released, and b is the block there, or 0. */
  lemma ReleaseNext(sb: Super, fs0: Fs, own0: seq<Owner>, own: seq<Owner>, i: nat, n: nat, hi: nat, b: nat)
    requires Inv(sb, fs0, own0) && Released(own0, own, i, n, hi) && i < |fs0.inodes|
    requires (n < NDIRECT && hi == 0) || (n == NDIRECT && NDIRECT < hi < REFS)
    requires b == Ref(fs0, i, if hi == 0 then n else hi)
    ensures b != 0 ==> b < |own|
    ensures Released(own0, if b == 0 then own else own[b := Free], i,
                     if hi == 0 then n + 1 else n, if hi == 0 then 0 else hi + 1)
  {
    hide Ref, Used;
  }

  lemma TruncStart(sb: Super, fs: Fs, own: seq<Owner>, i: nat)
    requires Inv(sb, fs, own) && i < |fs.inodes|
    ensures Truncating(sb, fs, own, fs, own, i, 0, 0)
  {
    hide Ref, Used;
  }

  /** The references of fs in terms of those of fs0. */
  lemma TruncRefs(sb: Super, fs0: Fs, own0: seq<Owner>, fs: Fs, own: seq<Owner>, i: nat, n: nat, hi: nat)
    requires Truncating(sb, fs0, own0, fs, own, i, n, hi)
    ensures forall j: nat, m: nat {:trigger Ref(fs, j, m)} {:trigger Ref(fs0, j, m)} | j < |fs.inodes| && m < REFS ::
              Ref(fs, j, m) == if j == i && m < n then 0 else Ref(fs0, j, m)
  {
    hide WordAt, Used, Owns;
  }

  /** Direct reference n: nothing to free, or its block is in use and is freed. */
  lemma TruncDirect(sb: Super, fs0: Fs, own0: seq<Owner>, fs: Fs, own: seq<Owner>, fs2: Fs, i: nat, n: nat)
    requires Truncating(sb, fs0, own0, fs, own, i, n, 0) && n < NDIRECT
    requires fs.inodes[i].addrs[n] != 0 ==> Used(fs.bitmap, fs.inodes[i].addrs[n])
    requires fs2 == if fs.inodes[i].addrs[n] == 0 then fs
                    else Fs(Unmark(fs.bitmap, fs.inodes[i].addrs[n]),
                            fs.inodes[i := SetAddr(fs.inodes[i], n, 0)], fs.data)
    ensures var b := fs.inodes[i].addrs[n];
            Truncating(sb, fs0, own0, fs2, if b == 0 then own else own[b := Free], i, n + 1, 0)
  {
    hide Ref, Used, Unmark, Released, Owns, Inv;
    var b := fs.inodes[i].addrs[n];
    AddrRef(fs0, i, n) by { InvWf(sb, fs0, own0); }
    ReleaseNext(sb, fs0, own0, own, i, n, 0, b);
    if b != 0 {
      DropSlot(sb, fs, own, fs2, i, n);
    }
  }

  lemma InvWf(sb: Super, fs: Fs, own: seq<Owner>)
    requires Inv(sb, fs, own)
    ensures Wf(sb, fs)
  {
  }

  lemma DropSlot(sb: Super, fs: Fs, own: seq<Owner>, fs2: Fs, i: nat, n: nat)
    requires Wf(sb, fs) && Owns(sb, fs, own, i, 0) && i < |fs.inodes| && n < NDIRECT
    requires var b := fs.inodes[i].addrs[n];
             && b != 0 && Used(fs.bitmap, b)
             && fs2 == Fs(Unmark(fs.bitmap, b), fs.inodes[i := SetAddr(fs.inodes[i], n, 0)], fs.data)
    ensures Wf(sb, fs2) && Owns(sb, fs2, own[fs.inodes[i].addrs[n] := Free], i, 0)
  {
    assert Ref(fs, i, n) == fs.inodes[i].addrs[n];
    DropRefs(fs, fs2, i, n);
    hide Ref, Used, Unmark;
  }

  lemma DropRefs(fs: Fs, fs2: Fs, i: nat, n: nat)
    requires i < |fs.inodes| == |fs2.inodes| && n < NDIRECT && fs2.data == fs.data
    requires |fs.inodes[i].addrs| == NDIRECT + 1
    requires fs2.inodes == fs.inodes[i := SetAddr(fs.inodes[i], n, 0)]
    ensures forall j: nat, m: nat {:trigger Ref(fs2, j, m)} {:trigger Ref(fs, j, m)} | j < |fs.inodes| && m < REFS
                && |fs.inodes[j].addrs| == NDIRECT + 1 && fs.inodes[j].addrs[NDIRECT] < |fs.data| ::
              Ref(fs2, j, m) == if j == i && m == n then 0 else Ref(fs, j, m)
  {
    hide WordAt;
  }

  /** A block that itrunc is about to free is in use. */
  lemma TruncUsed(sb: Super, fs0: Fs, own0: seq<Owner>, fs: Fs, own: seq<Owner>, i: nat, n: nat, hi: nat, k: nat)
    requires Truncating(sb, fs0, own0, fs, own, i, n, hi) && k < REFS && Ref(fs, i, k) != 0 && !(NDIRECT < k < hi)
    ensures Ref(fs, i, k) < sb.size && Used(fs.bitmap, Ref(fs, i, k)) && own[Ref(fs, i, k)] == Held(i, k)
  {
    hide Ref, Used;
  }

  /** The entry of the indirect block at reference hi. */
  lemma TruncEntry(sb: Super, fs0: Fs, own0: seq<Owner>, fs: Fs, own: seq<Owner>, fs2: Fs, i: nat, hi: nat)
    requires Truncating(sb, fs0, own0, fs, own, i, NDIRECT, hi) && NDIRECT < hi < REFS
    requires var b := Ref(fs, i, hi);
             && (b != 0 ==> b < sb.size && Used(fs.bitmap, b))
             && fs2 == if b == 0 then fs else Fs(Unmark(fs.bitmap, b), fs.inodes, fs.data)
    ensures var b := Ref(fs, i, hi);
            Truncating(sb, fs0, own0, fs2, if b == 0 then own else own[b := Free], i, NDIRECT, hi + 1)
  {
    var b := Ref(fs, i, hi);
    TruncRefs(sb, fs0, own0, fs, own, i, NDIRECT, hi);
    assert b == Ref(fs0, i, hi);
    ReleaseNext(sb, fs0, own0, own, i, NDIRECT, hi, b);
    SameRefs(sb, fs, fs2);
    hide Ref, Used, Unmark, Released;
    FreeEntry(sb, fs, own, fs2, i, hi);
  }

  lemma FreeEntry(sb: Super, fs: Fs, own: seq<Owner>, fs2: Fs, i: nat, hi: nat)
    requires Wf(sb, fs) && Owns(sb, fs, own, i, hi) && i < |fs.inodes| && NDIRECT < hi < REFS
    requires var b := Ref(fs, i, hi);
             && (b != 0 ==> b < sb.size && Used(fs.bitmap, b))
             && fs2 == if b == 0 then fs else Fs(Unmark(fs.bitmap, b), fs.inodes, fs.data)
    ensures Wf(sb, fs2)
    ensures var b := Ref(fs, i, hi); Owns(sb, fs2, if b == 0 then own else own[b := Free], i, hi + 1)
  {
    SameRefs(sb, fs, fs2);
    hide Ref, Used, Unmark;
  }

  lemma SameRefs(sb: Super, fs: Fs, fs2: Fs)
    requires Wf(sb, fs) && fs2.inodes == fs.inodes && fs2.data == fs.data
    ensures forall j: nat, m: nat {:trigger Ref(fs2, j, m)} {:trigger Ref(fs, j, m)} | j < |fs.inodes| && m < REFS ::
              Ref(fs2, j, m) == Ref(fs, j, m)
  {
  }

  /** The blocks of inode i have become free, and no others. */
  ghost predicate AllReleased(own0: seq<Owner>, own: seq<Owner>, i: nat) {
    && |own| == |own0|
    && forall b: nat | b < |own| :: own[b] == if own0[b].Held? && own0[b].inum == i then Free else own0[b]
  }

  lemma ReleasedLost(own1: seq<Owner>, own2: seq<Owner>, i: nat)
    requires AllReleased(own1, own2, i)
    ensures SameLost(own1, own2)
  {
  }

  /** All references of inode i are gone; the others are as they were. */
  ghost predicate Cleared(sb: Super, fs0: Fs, fs: Fs, i: nat)
    requires Wf(sb, fs0) && Wf(sb, fs)
  {
    && |fs.inodes| == |fs0.inodes|
    && forall j: nat, m: nat {:trigger Ref(fs, j, m)} | j < |fs.inodes| && m < REFS ::
         Ref(fs, j, m) == if j == i then 0 else Ref(fs0, j, m)
  }

  /** The end of itrunc without an indirect block. */
  lemma TruncDirectOnly(sb: Super, fs0: Fs, own0: seq<Owner>, fs: Fs, own: seq<Owner>, i: nat)
    requires Truncating(sb, fs0, own0, fs, own, i, NDIRECT, 0) && fs.inodes[i].addrs[NDIRECT] == 0
    ensures Inv(sb, fs, own) && AllReleased(own0, own, i) && Cleared(sb, fs0, fs, i)
  {
    TruncRefs(sb, fs0, own0, fs, own, i, NDIRECT, 0);
    assert forall k: nat | NDIRECT <= k < REFS :: Ref(fs0, i, k) == 0;
    hide Ref, Used;
  }

  /** The end of itrunc with one: the indirect block goes last, with all entries it still shows. */
  lemma TruncIndirect(sb: Super, fs0: Fs, own0: seq<Owner>, fs: Fs, own: seq<Owner>, fs2: Fs, i: nat, ind: nat)
    requires Truncating(sb, fs0, own0, fs, own, i, NDIRECT, REFS) && ind == fs.inodes[i].addrs[NDIRECT] != 0
    requires Used(fs.bitmap, ind)
    requires fs2 == Fs(Unmark(fs.bitmap, ind), fs.inodes[i := SetAddr(fs.inodes[i], NDIRECT, 0)], fs.data)
    ensures Inv(sb, fs2, own[ind := Free]) && AllReleased(own0, own[ind := Free], i) && Cleared(sb, fs0, fs2, i)
  {
    assert Ref(fs0, i, NDIRECT) == ind == Ref(fs, i, NDIRECT);
    assert Wf(sb, fs2) && Cleared(sb, fs0, fs2, i) by {
      hide Used, Unmark, WordAt, Owns, Released;
    }
    assert AllReleased(own0, own[ind := Free], i) by {
      hide Ref, Used;
    }
    ClearedOwns(sb, fs0, own0, fs2, own[ind := Free], i) by {
      hide Ref, Used, Unmark, AllReleased, Released, Cleared;
    }
  }

  lemma ClearedOwns(sb: Super, fs0: Fs, own0: seq<Owner>, fs: Fs, own: seq<Owner>, i: nat)
    requires Inv(sb, fs0, own0) && Wf(sb, fs) && AllReleased(own0, own, i) && Cleared(sb, fs0, fs, i)
    requires forall b: nat | b < sb.size :: Used(fs.bitmap, b) == !own[b].Free?
    ensures Inv(sb, fs, own)
  {
    hide Ref, Used;
  }

  /** An inode without blocks, and of size 0, is an empty file without holes. */
  lemma TruncContents(sb: Super, fs0: Fs, fs1: Fs, fs2: Fs, own: seq<Owner>, i: nat)
    requires Wf(sb, fs0) && Inv(sb, fs1, own) && i < |fs0.inodes| && fs1.data == fs0.data && Cleared(sb, fs0, fs1, i)
    requires forall j: nat | j < |fs0.inodes| && j != i :: fs1.inodes[j] == fs0.inodes[j]
    requires fs2 == Fs(fs1.bitmap, fs1.inodes[i := fs1.inodes[i].(size := 0)], fs1.data)
    ensures Inv(sb, fs2, own) && OthersKept(sb, fs0, fs2, i) && Contents(fs2, i) == [] && NoHole(fs2, i)
    ensures AllBytes(fs2, i) == Zeros(MAXFILE * BSIZE)
  {
    Resize(sb, fs1, fs2, own, i, fs2.inodes[i]);
    assert forall j: nat, pos: nat | j < |fs0.inodes| && j != i
             && pos < MAXFILE * BSIZE :: ByteAt(fs2, j, pos) == ByteAt(fs0, j, pos) by {
      hide Ref, Used, Owns;
    }
    SameContents(sb, fs0, fs2, i) by { hide Ref, Used, Owns, ByteAt; }
    assert AllBytes(fs2, i) == Zeros(MAXFILE * BSIZE) by {
      hide Ref, Used, Owns;
      ZeroBytes(sb, fs2, i);
    }
  }

  lemma ZeroBytes(sb: Super, fs: Fs, i: nat)
    requires Wf(sb, fs) && i < |fs.inodes| && forall m: nat | m < REFS :: Ref(fs, i, m) == 0
    ensures AllBytes(fs, i) == Zeros(MAXFILE * BSIZE)
  {
    hide Ref;
    forall p: nat | p < MAXFILE * BSIZE ensures ByteAt(fs, i, p) == 0 {}
    hide ByteAt;
  }

  lemma AddrRef(fs: Fs, i: nat, k: nat)
    requires i < |fs.inodes| && k <= NDIRECT
    requires |fs.inodes[i].addrs| == NDIRECT + 1 && fs.inodes[i].addrs[NDIRECT] < |fs.data|
    ensures Ref(fs, i, k) == fs.inodes[i].addrs[k]
  {
  }

  lemma EntryRef(fs: Fs, i: nat, j: nat)
    requires i < |fs.inodes| && j < NINDIRECT
    requires |fs.inodes[i].addrs| == NDIRECT + 1 && 0 < fs.inodes[i].addrs[NDIRECT] < |fs.data|
    ensures Ref(fs, i, NDIRECT + 1 + j) == WordAt(fs.data[fs.inodes[i].addrs[NDIRECT]], j)
  {
  }

  lemma TruncSizes(sb: Super, fs0: Fs, own0: seq<Owner>, fs: Fs, own: seq<Owner>, i: nat, n: nat, hi: nat)
    requires Truncating(sb, fs0, own0, fs, own, i, n, hi)
    ensures |fs.data| == |own| == sb.size <= |fs.bitmap| * BPB
    ensures |fs.inodes[i].addrs| == NDIRECT + 1
    ensures forall k: nat | k <= NDIRECT :: fs.inodes[i].addrs[k] < sb.size
    ensures fs.inodes == fs0.inodes[i := fs0.inodes[i].(addrs := fs.inodes[i].addrs)] && fs.data == fs0.data
  {
  }

  lemma TruncEntriesStart(sb: Super, fs0: Fs, own0: seq<Owner>, fs: Fs, own: seq<Owner>, i: nat)
    requires Truncating(sb, fs0, own0, fs, own, i, NDIRECT, 0)
    ensures Truncating(sb, fs0, own0, fs, own, i, NDIRECT, NDIRECT + 1)
  {
    hide Ref, Used;
  }

  /** What the loop over the indirect block finds at entry j. */
  lemma TruncEntryRef(sb: Super, fs0: Fs, own0: seq<Owner>, fs: Fs, own: seq<Owner>, i: nat, j: nat, ind: nat)
    requires Truncating(sb, fs0, own0, fs, own, i, NDIRECT, NDIRECT + 1 + j) && j < NINDIRECT
    requires ind == fs.inodes[i].addrs[NDIRECT] != 0
    ensures var b := WordAt(fs.data[ind], j);
            && b == Ref(fs, i, NDIRECT + 1 + j)
            && (b != 0 ==> b < sb.size && Used(fs.bitmap, b) && b < |own| && own[b] == Held(i, NDIRECT + 1 + j))
    ensures sb.size <= |fs.bitmap| * BPB
  {
  }

  // ---- holes ----------------------------------------------------------------------------------------

  /** The place in addrs on which file block bn depends: its own, or that of the indirect block. */
  function AddrSlot(bn: nat): (k: nat)
    ensures k <= NDIRECT
  {
    if bn < NDIRECT then bn else NDIRECT
  }

  /** Writing n bytes at off needs no new entry in addrs. */
  ghost predicate AddrsReady(d: Dinode, off: nat, n: nat)
    requires |d.addrs| == NDIRECT + 1
  {
    forall bn: nat | off / BSIZE <= bn < off / BSIZE + Span(off, n) :: d.addrs[AddrSlot(bn)] != 0
  }

  lemma ReadyAt(d: Dinode, off: nat, n: nat, tot: nat)
    requires |d.addrs| == NDIRECT + 1 && AddrsReady(d, off, n) && tot < n
    ensures d.addrs[AddrSlot((off + tot) / BSIZE)] != 0
  {
  }

  lemma WritingAddrs(sb: Super, fs0: Fs, fs: Fs, own: seq<Owner>, i: nat, off: nat, src: seq<Byte>)
    requires Writing(sb, fs0, fs, own, i, off, src, |src|)
    ensures i < |fs.inodes| && |fs.inodes[i].addrs| == NDIRECT + 1 && AddrsReady(fs.inodes[i], off, |src|)
  {
    hide WordAt, Owns, ByteAt;
    forall bn: nat | off / BSIZE <= bn < off / BSIZE + Span(off, |src|) ensures fs.inodes[i].addrs[AddrSlot(bn)] != 0 {
      assert Mapped(fs, i, bn);
    }
  }

  /** A disk whose copy of inode i lacks addresses that the one in memory has: as the blocks at those addresses are
      marked and nothing on the disk refers to them, there is no block ownership, unless none is lacking. */
  lemma StaleInode(sb: Super, fs: Fs, own: seq<Owner>, i: nat, d: Dinode)
    requires Inv(sb, fs, own) && NoneLost(own)
    requires i < |fs.inodes| && |d.addrs| == NDIRECT + 1 && d.size <= MAXFILE * BSIZE
    requires forall k: nat | k <= NDIRECT :: d.addrs[k] == 0 || d.addrs[k] == fs.inodes[i].addrs[k]
    ensures Owned(sb, Fs(fs.bitmap, fs.inodes[i := d], fs.data)) <==> d.addrs == fs.inodes[i].addrs
  {
    var fs2 := Fs(fs.bitmap, fs.inodes[i := d], fs.data);
    if d.addrs == fs.inodes[i].addrs {
      StaleRefs(sb, fs, fs2, i);
      assert Inv(sb, fs2, own) by { hide Ref, Used; }
    } else {
      var k: nat :| k <= NDIRECT && d.addrs[k] != fs.inodes[i].addrs[k];
      StaleRefs(sb, fs, fs2, i);
      forall own2 ensures !(Inv(sb, fs2, own2) && NoneLost(own2)) {
        LostBlock(sb, fs, fs2, own, own2, i, k);
      }
    }
  }

  /** At the end of a write the disk's copy of the inode is the old one or the new one. */
  lemma WritingStale(sb: Super, fs0: Fs, fs1: Fs, fs2: Fs, own: seq<Owner>, i: nat, off: nat, src: seq<Byte>, d: Dinode)
    requires Writing(sb, fs0, fs1, own, i, off, src, |src|) && Inv(sb, fs2, own) && NoneLost(own)
    requires |fs2.inodes| == |fs1.inodes| && fs2.inodes[i].addrs == fs1.inodes[i].addrs
    requires d == fs0.inodes[i] || d == fs2.inodes[i]
    ensures Owned(sb, Fs(fs2.bitmap, fs2.inodes[i := d], fs2.data)) <==> d.addrs == fs2.inodes[i].addrs
  {
    hide Owns, ByteAt, WordAt;
    forall k: nat | k <= NDIRECT ensures d.addrs[k] == 0 || d.addrs[k] == fs2.inodes[i].addrs[k] {
      assert Ref(fs0, i, k) == fs0.inodes[i].addrs[k] && Ref(fs1, i, k) == fs1.inodes[i].addrs[k];
    }
    StaleInode(sb, fs2, own, i, d);
  }

  /** At the end of a read the disk's copy is the old one. */
  lemma ReadingStale(sb: Super, fs1: Fs, own1: seq<Owner>, fs2: Fs, own2: seq<Owner>, i: nat, off: nat, n: nat)
    requires Extended(sb, fs1, own1, fs2, own2, i) && NoneLost(own1) && off + n <= MAXFILE * BSIZE
    requires RefsOf(fs2, i) == RefsOf(fs1, i) + Needed(off, n)
    ensures Owned(sb, Fs(fs2.bitmap, fs2.inodes[i := fs1.inodes[i]], fs2.data)) <==> AddrsReady(fs1.inodes[i], off, n)
  {
    hide Owns, ByteAt, WordAt, Needs;
    var d := fs1.inodes[i];
    assert NoneLost(own2);
    forall k: nat | k <= NDIRECT
      ensures d.addrs[k] == 0 || d.addrs[k] == fs2.inodes[i].addrs[k]
      ensures k in RefsOf(fs1, i) <==> d.addrs[k] != 0
      ensures k in RefsOf(fs2, i) <==> fs2.inodes[i].addrs[k] != 0
    {
      assert Ref(fs1, i, k) == d.addrs[k] && Ref(fs2, i, k) == fs2.inodes[i].addrs[k];
    }
    StaleInode(sb, fs2, own2, i, d);
    ReadyRefs(fs1, i, off, n);
    if AddrsThere(RefsOf(fs1, i), off, n) {
      assert forall k: nat | k <= NDIRECT :: k in Needed(off, n) ==> k in RefsOf(fs1, i);
      assert d.addrs == fs2.inodes[i].addrs;
    } else {
      var k: nat :| k <= NDIRECT && Needs(k, off, n) && k !in RefsOf(fs1, i);
      assert k in Needed(off, n);
      assert d.addrs[k] != fs2.inodes[i].addrs[k];
    }
  }

  /** The disk has no references but those of the inodes in memory. */
  lemma StaleRefs(sb: Super, fs: Fs, fs2: Fs, i: nat)
    requires Wf(sb, fs) && Wf(sb, fs2) && i < |fs.inodes| == |fs2.inodes| && fs2.data == fs.data
    requires forall j: nat | j < |fs.inodes| && j != i :: fs2.inodes[j] == fs.inodes[j]
    requires forall k: nat | k <= NDIRECT ::
               fs2.inodes[i].addrs[k] == 0 || fs2.inodes[i].addrs[k] == fs.inodes[i].addrs[k]
    ensures forall j: nat, m: nat {:trigger Ref(fs2, j, m)} | j < |fs.inodes| && m < REFS ::
              Ref(fs2, j, m) == 0 || Ref(fs2, j, m) == Ref(fs, j, m)
    ensures fs2.inodes[i].addrs == fs.inodes[i].addrs ==>
              forall j: nat, m: nat {:trigger Ref(fs2, j, m)} | j < |fs.inodes|
                && m < REFS :: Ref(fs2, j, m) == Ref(fs, j, m)
  {
    hide WordAt;
  }

  lemma LostBlock(sb: Super, fs: Fs, fs2: Fs, own: seq<Owner>, own2: seq<Owner>, i: nat, k: nat)
    requires Inv(sb, fs, own) && Wf(sb, fs2) && fs2.bitmap == fs.bitmap && |fs2.inodes| == |fs.inodes|
    requires i < |fs.inodes| && k < REFS && Ref(fs2, i, k) == 0 != Ref(fs, i, k)
    requires forall j: nat, m: nat {:trigger Ref(fs2, j, m)} | j < |fs.inodes| && m < REFS ::
               Ref(fs2, j, m) == 0 || Ref(fs2, j, m) == Ref(fs, j, m)
    ensures !(Inv(sb, fs2, own2) && NoneLost(own2))
  {
  }

  // ---- the blocks an operation takes ------------------------------------------------------------------

  /** Reference k serves bytes off .. off + n: it is that of a file block among them, or of the indirect block and one
      of them depends on it. */
  predicate Needs(k: nat, off: nat, n: nat) {
    n > 0 &&
    if k == NDIRECT then (off + n - 1) / BSIZE >= NDIRECT
    else var bn := if k < NDIRECT then k else k - 1; off / BSIZE <= bn <= (off + n - 1) / BSIZE
  }

  function Needed(off: nat, n: nat): set<nat> {
    set k: nat | k < REFS && Needs(k, off, n)
  }

  lemma NeededSplit(off: nat, m: nat, n: nat)
    requires m <= n
    ensures Needed(off, n) == Needed(off, m) + Needed(off + m, n - m)
  {
    forall k: nat | k < REFS ensures Needs(k, off, n) <==> Needs(k, off, m) || Needs(k, off + m, n - m) {}
  }

  lemma CountSplit(a: set<nat>, b: set<nat>, r: set<nat>)
    ensures |(a + b) - r| == |a - r| + |b - (r + a)|
  {
    assert (a + b) - r == (a - r) + (b - (r + a));
  }

  /** The references that inode i has. */
  ghost function RefsOf(fs: Fs, i: nat): set<nat>
    requires i < |fs.inodes| && |fs.inodes[i].addrs| == NDIRECT + 1 && fs.inodes[i].addrs[NDIRECT] < |fs.data|
  {
    set k: nat | k < REFS && Ref(fs, i, k) != 0
  }

  /** The free blocks. */
  ghost function FreeSet(sb: Super, bm: seq<Block>): set<nat>
    requires sb.size <= |bm| * BPB
  {
    set b: nat | b < sb.size && !Used(bm, b)
  }

  /** From fs1 to fs2 inode i has lost no reference, and the others have the same ones. */
  ghost predicate RefsAdded(sb: Super, fs1: Fs, fs2: Fs, i: nat)
    requires Wf(sb, fs1) && Wf(sb, fs2)
  {
    && |fs1.inodes| == |fs2.inodes| && i < |fs1.inodes|
    && (forall j: nat | j < |fs1.inodes| && j != i :: RefsKept(fs1, fs2, j))
    && (forall m: nat | m < REFS :: Ref(fs1, i, m) != 0 ==> Ref(fs2, i, m) == Ref(fs1, i, m))
  }

  lemma {:induction false} ImageSize(keys: set<nat>, f: map<nat, nat>, image: set<nat>)
    requires forall k | k in keys :: k in f && f[k] in image
    requires forall k, m | k in keys && m in keys && f[k] == f[m] :: k == m
    requires forall b | b in image :: exists k :: k in keys && f[k] == b
    ensures |image| == |keys|
  {
    if keys == {} {
      assert image == {};
    } else {
      var k :| k in keys;
      ImageSize(keys - {k}, f, image - {f[k]});
    }
  }

  /** Each new reference takes one free block. */
  lemma BlocksTaken(sb: Super, fs1: Fs, own1: seq<Owner>, fs2: Fs, own2: seq<Owner>, i: nat)
    requires Inv(sb, fs1, own1) && Inv(sb, fs2, own2) && SameLost(own1, own2) && RefsAdded(sb, fs1, fs2, i)
    ensures RefsOf(fs1, i) <= RefsOf(fs2, i)
    ensures |FreeSet(sb, fs1.bitmap)| == |FreeSet(sb, fs2.bitmap)| + |RefsOf(fs2, i) - RefsOf(fs1, i)|
  {
    hide Ref, Used;
    var free1, free2 := FreeSet(sb, fs1.bitmap), FreeSet(sb, fs2.bitmap);
    var gained := RefsOf(fs2, i) - RefsOf(fs1, i);
    var f := map k | k in gained :: Ref(fs2, i, k);
    forall b: nat | b < sb.size && Used(fs1.bitmap, b) ensures Used(fs2.bitmap, b) {
      UsedKept(sb, fs1, own1, fs2, own2, i, b);
    }
    forall b | b in free1 - free2 ensures exists k :: k in gained && f[k] == b {
      var k := NewlyUsed(sb, fs1, own1, fs2, own2, i, b);
      assert k in gained && f[k] == b;
    }
    forall k | k in gained ensures f[k] in free1 - free2 {
      StillFree(sb, fs1, own1, fs2, own2, i, k);
    }
    assert forall k, m | k in gained && m in gained && f[k] == f[m] ::
             own2[f[k]] == Held(i, k) && own2[f[m]] == Held(i, m);
    ImageSize(gained, f, free1 - free2);
    assert free1 == free2 + (free1 - free2);
  }

  lemma UsedKept(sb: Super, fs1: Fs, own1: seq<Owner>, fs2: Fs, own2: seq<Owner>, i: nat, b: nat)
    requires Inv(sb, fs1, own1) && Inv(sb, fs2, own2) && SameLost(own1, own2) && RefsAdded(sb, fs1, fs2, i)
    requires b < sb.size
    requires Used(fs1.bitmap, b)
    ensures Used(fs2.bitmap, b)
  {
    hide Ref, Used;
    if own1[b].Held? {
      assert Ref(fs1, own1[b].inum, own1[b].k) == b && (own1[b].inum != i ==> RefsKept(fs1, fs2, own1[b].inum));
      assert Ref(fs2, own1[b].inum, own1[b].k) == b;
    }
  }

  lemma NewlyUsed(sb: Super, fs1: Fs, own1: seq<Owner>, fs2: Fs, own2: seq<Owner>, i: nat, b: nat) returns (k: nat)
    requires Inv(sb, fs1, own1) && Inv(sb, fs2, own2) && SameLost(own1, own2) && RefsAdded(sb, fs1, fs2, i)
    requires b < sb.size && !Used(fs1.bitmap, b) && Used(fs2.bitmap, b)
    ensures k in RefsOf(fs2, i) - RefsOf(fs1, i) && Ref(fs2, i, k) == b
  {
    hide Ref, Used;
    k := own2[b].k;
    var j := own2[b].inum;
    assert Ref(fs2, j, k) == b && (j != i ==> RefsKept(fs1, fs2, j));
    assert Ref(fs1, j, k) != b;
  }

  lemma StillFree(sb: Super, fs1: Fs, own1: seq<Owner>, fs2: Fs, own2: seq<Owner>, i: nat, k: nat)
    requires Inv(sb, fs1, own1) && Inv(sb, fs2, own2) && SameLost(own1, own2) && RefsAdded(sb, fs1, fs2, i)
    requires k in RefsOf(fs2, i) - RefsOf(fs1, i)
    ensures Ref(fs2, i, k) in FreeSet(sb, fs1.bitmap) - FreeSet(sb, fs2.bitmap)
  {
    hide Ref, Used;
    var b := Ref(fs2, i, k);
    assert own2[b] == Held(i, k);
    forall j: nat, m: nat | j < |fs1.inodes| && m < REFS && Ref(fs1, j, m) != 0
      ensures Ref(fs2, j, m) == Ref(fs1, j, m) {
      assert j != i ==> RefsKept(fs1, fs2, j);
    }
  }

  /** The operation on bytes off .. off + n of file i has added no reference but those they need. */
  ghost predicate RefsOnly(fs1: Fs, fs2: Fs, i: nat, off: nat, n: nat)
    requires i < |fs1.inodes| && |fs1.inodes[i].addrs| == NDIRECT + 1 && fs1.inodes[i].addrs[NDIRECT] < |fs1.data|
    requires i < |fs2.inodes| && |fs2.inodes[i].addrs| == NDIRECT + 1 && fs2.inodes[i].addrs[NDIRECT] < |fs2.data|
  {
    forall m: nat | m < REFS && !Needs(m, off, n) :: Ref(fs2, i, m) == Ref(fs1, i, m)
  }

  /** File i has every reference that bytes off .. off + n need. */
  ghost predicate AllRefs(fs: Fs, i: nat, off: nat, n: nat)
    requires i < |fs.inodes| && |fs.inodes[i].addrs| == NDIRECT + 1 && fs.inodes[i].addrs[NDIRECT] < |fs.data|
  {
    forall m: nat | m < REFS && Needs(m, off, n) :: Ref(fs, i, m) != 0
  }

  lemma MappedRefs(fs: Fs, i: nat, bn: nat)
    requires i < |fs.inodes| && |fs.inodes[i].addrs| == NDIRECT + 1 && fs.inodes[i].addrs[NDIRECT] < |fs.data|
    requires bn < MAXFILE
    ensures Ref(fs, i, SlotOf(bn)) != 0 <==> AllRefs(fs, i, bn * BSIZE, 1)
  {
    hide WordAt;
    assert Needs(SlotOf(bn), bn * BSIZE, 1);
  }

  /** The next file block of the loop. */
  lemma NeedsStep(off: nat, n: nat, m: nat, len: nat)
    requires 0 < m && (off + n) % BSIZE + m <= BSIZE && n + m <= len && (n == 0 || (off + n) % BSIZE == 0)
    ensures forall k: nat :: Needs(k, off, n + m) <==> Needs(k, off, n) || Needs(k, (off + n) / BSIZE * BSIZE, 1)
    ensures forall k: nat :: Needs(k, off, n + m) ==> Needs(k, off, len)
  {
    var x := (off + n) / BSIZE;
    assert (off + n + m - 1) / BSIZE == x && (n > 0 ==> (off + n - 1) / BSIZE == x - 1);
    assert x * BSIZE / BSIZE == x && (x * BSIZE + 1 - 1) / BSIZE == x;
  }

  lemma RefsStep(sb: Super, fs0: Fs, fs1: Fs, fs2: Fs, i: nat, off: nat, n: nat, m: nat, len: nat)
    requires 0 < m && (off + n) % BSIZE + m <= BSIZE && n + m <= len && (n == 0 || (off + n) % BSIZE == 0)
    requires Wf(sb, fs0) && Wf(sb, fs1) && Wf(sb, fs2) && i < |fs0.inodes| == |fs1.inodes| == |fs2.inodes|
    requires RefsOnly(fs0, fs1, i, off, len) && RefsOnly(fs1, fs2, i, (off + n) / BSIZE * BSIZE, 1)
    ensures RefsOnly(fs0, fs2, i, off, len)
    ensures AllRefs(fs1, i, off, n) && AllRefs(fs2, i, (off + n) / BSIZE * BSIZE, 1) ==> AllRefs(fs2, i, off, n + m)
    ensures AllRefs(fs2, i, off, len) ==> AllRefs(fs2, i, (off + n) / BSIZE * BSIZE, 1)
  {
    NeedsStep(off, n, m, len);
    hide Ref, Needs;
  }

  lemma GrownAdded(sb: Super, fs1: Fs, fs2: Fs, i: nat)
    requires Wf(sb, fs1) && Wf(sb, fs2) && Grown(sb, fs1, fs2, i)
    ensures RefsAdded(sb, fs1, fs2, i)
  {
    hide Ref;
  }

  lemma NeededMapped(fs: Fs, i: nat, off: nat, n: nat, pos: nat)
    requires i < |fs.inodes| && |fs.inodes[i].addrs| == NDIRECT + 1 && fs.inodes[i].addrs[NDIRECT] < |fs.data|
    requires off <= pos < off + n <= MAXFILE * BSIZE && Needed(off, n) <= RefsOf(fs, i)
    ensures Mapped(fs, i, pos / BSIZE)
  {
    hide Ref;
    assert SlotOf(pos / BSIZE) in Needed(off, n);
  }

  /** A file without holes misses no reference for bytes within its size. */
  lemma NothingMissing(sb: Super, fs: Fs, own: seq<Owner>, i: nat, off: nat, n: nat)
    requires Inv(sb, fs, own) && i < |fs.inodes|
    ensures NoHole(fs, i) && off <= fs.inodes[i].size ==>
              Needed(off, if off + n > fs.inodes[i].size then fs.inodes[i].size - off else n) <= RefsOf(fs, i)
  {
    hide Owns, WordAt;
    if NoHole(fs, i) && off <= fs.inodes[i].size {
      var len := if off + n > fs.inodes[i].size then fs.inodes[i].size - off else n;
      forall k | k in Needed(off, len) ensures k in RefsOf(fs, i) {
        var bn := if k < NDIRECT then k else if k == NDIRECT then (off + len - 1) / BSIZE else k - 1;
        assert Mapped(fs, i, bn);
      }
    }
  }

  /** An operation on len bytes at off of file i has done n of them. */
  ghost predicate Taking(sb: Super, fs0: Fs, fs: Fs, i: nat, off: nat, n: nat, len: nat) {
    && Wf(sb, fs0) && Wf(sb, fs) && RefsAdded(sb, fs0, fs, i) && RefsOnly(fs0, fs, i, off, len)
    && AllRefs(fs, i, off, n)
  }

  lemma TakingStart(sb: Super, fs: Fs, own: seq<Owner>, i: nat, off: nat, len: nat)
    requires Inv(sb, fs, own) && i < |fs.inodes|
    ensures Taking(sb, fs, fs, i, off, 0, len)
  {
    hide Ref, Owns;
  }

  /** A block of it is done. */
  lemma TakingStep(sb: Super, fs0: Fs, fs1: Fs, fs2: Fs, i: nat, off: nat, n: nat, m: nat, len: nat)
    requires 0 < m && (off + n) % BSIZE + m <= BSIZE && n + m <= len && (n == 0 || (off + n) % BSIZE == 0)
    requires Taking(sb, fs0, fs1, i, off, n, len)
    requires Wf(sb, fs2) && Grown(sb, fs0, fs2, i) && RefsOnly(fs1, fs2, i, (off + n) / BSIZE * BSIZE, 1)
    requires AllRefs(fs2, i, (off + n) / BSIZE * BSIZE, 1)
    ensures Taking(sb, fs0, fs2, i, off, n + m, len)
  {
    hide Ref, AllRefs, RefsOnly;
    GrownAdded(sb, fs0, fs2, i);
    RefsStep(sb, fs0, fs1, fs2, i, off, n, m, len);
  }

  lemma TakingDone(sb: Super, fs0: Fs, own0: seq<Owner>, fs: Fs, own: seq<Owner>, i: nat, off: nat, len: nat)
    requires Inv(sb, fs0, own0) && Inv(sb, fs, own) && SameLost(own0, own) && Taking(sb, fs0, fs, i, off, len, len)
    ensures RefsOf(fs, i) == RefsOf(fs0, i) + Needed(off, len)
    ensures |FreeSet(sb, fs0.bitmap)| == |FreeSet(sb, fs.bitmap)| + |Needed(off, len) - RefsOf(fs0, i)|
  {
    hide Ref, Owns, AllRefs, RefsOnly, RefsAdded;
    EnoughBlocks(sb, fs0, own0, fs, own, i, off, len);
  }

  /** The next block is missing, and none is free. */
  lemma TakingStuck(sb: Super, fs0: Fs, own0: seq<Owner>, fs1: Fs, fs2: Fs, own2: seq<Owner>, i: nat, off: nat, n: nat,
                    len: nat)
    requires n < len && (n == 0 || (off + n) % BSIZE == 0)
    requires Inv(sb, fs0, own0) && Inv(sb, fs2, own2) && SameLost(own0, own2)
    requires Taking(sb, fs0, fs1, i, off, n, len) && Grown(sb, fs0, fs2, i)
    requires RefsOnly(fs1, fs2, i, (off + n) / BSIZE * BSIZE, 1) && !AllRefs(fs2, i, (off + n) / BSIZE * BSIZE, 1)
    requires forall c: nat | c < sb.size :: Used(fs2.bitmap, c)
    ensures |FreeSet(sb, fs0.bitmap)| < |Needed(off, len) - RefsOf(fs0, i)|
  {
    hide Ref, AllRefs, RefsOnly, Used, Owns, FreeSet, RefsOf;
    GrownAdded(sb, fs0, fs2, i);
    RefsStep(sb, fs0, fs1, fs2, i, off, n, 1, len);
    TooFewBlocks(sb, fs0, own0, fs2, own2, i, off, len);
  }

  lemma ReadingTook(sb: Super, fs0: Fs, own0: seq<Owner>, fs1: Fs, fs2: Fs, own2: seq<Owner>, i: nat,
                    off: nat, n: nat, m: nat, len: nat)
    requires 0 < m && (off + n) % BSIZE + m <= BSIZE && n + m <= len && (n == 0 || (off + n) % BSIZE == 0)
    requires Taking(sb, fs0, fs1, i, off, n, len) && Extended(sb, fs0, own0, fs2, own2, i)
    requires RefsOnly(fs1, fs2, i, (off + n) / BSIZE * BSIZE, 1) && AllRefs(fs2, i, (off + n) / BSIZE * BSIZE, 1)
    ensures Taking(sb, fs0, fs2, i, off, n + m, len)
  {
    hide Ref, Owns, ByteAt, AllRefs, RefsOnly;
    TakingStep(sb, fs0, fs1, fs2, i, off, n, m, len);
  }

  lemma ReadingStuck(sb: Super, fs0: Fs, own0: seq<Owner>, fs1: Fs, fs2: Fs, own2: seq<Owner>, i: nat,
                     off: nat, n: nat, len: nat)
    requires n < len && (n == 0 || (off + n) % BSIZE == 0)
    requires Taking(sb, fs0, fs1, i, off, n, len) && Extended(sb, fs0, own0, fs2, own2, i)
    requires RefsOnly(fs1, fs2, i, (off + n) / BSIZE * BSIZE, 1) && !AllRefs(fs2, i, (off + n) / BSIZE * BSIZE, 1)
    requires forall c: nat | c < sb.size :: Used(fs2.bitmap, c)
    ensures |FreeSet(sb, fs0.bitmap)| < |Needed(off, len) - RefsOf(fs0, i)|
  {
    hide Ref, Owns, ByteAt, AllRefs, RefsOnly, Used, FreeSet, RefsOf, Needed;
    TakingStuck(sb, fs0, own0, fs1, fs2, own2, i, off, n, len);
  }

  lemma WritingTook(sb: Super, fs0: Fs, fs1: Fs, fs2: Fs, own2: seq<Owner>, i: nat, off: nat, src: seq<Byte>, tot: nat,
                    next: nat)
    requires Taking(sb, fs0, fs1, i, off, tot, |src|) && Writing(sb, fs0, fs2, own2, i, off, src, next)
    requires tot < next <= |src| && (off + tot) % BSIZE + (next - tot) <= BSIZE
    requires (tot == 0 || (off + tot) % BSIZE == 0)
    requires RefsOnly(fs1, fs2, i, (off + tot) / BSIZE * BSIZE, 1) && AllRefs(fs2, i, (off + tot) / BSIZE * BSIZE, 1)
    ensures Taking(sb, fs0, fs2, i, off, next, |src|)
  {
    hide Ref, Owns, ByteAt, AllRefs, RefsOnly;
    TakingStep(sb, fs0, fs1, fs2, i, off, tot, next - tot, |src|);
  }

  lemma WritingStuck(sb: Super, fs0: Fs, own0: seq<Owner>, fs1: Fs, own1: seq<Owner>, fs2: Fs, own2: seq<Owner>, i: nat,
                     off: nat, src: seq<Byte>, tot: nat)
    requires Inv(sb, fs0, own0) && SameLost(own0, own1) && Taking(sb, fs0, fs1, i, off, tot, |src|)
    requires Writing(sb, fs0, fs1, own1, i, off, src, tot)
    requires Extended(sb, fs1, own1, fs2, own2, i) && tot < |src| && (tot == 0 || (off + tot) % BSIZE == 0)
    requires RefsOnly(fs1, fs2, i, (off + tot) / BSIZE * BSIZE, 1) && !AllRefs(fs2, i, (off + tot) / BSIZE * BSIZE, 1)
    requires forall c: nat | c < sb.size :: Used(fs2.bitmap, c)
    ensures |FreeSet(sb, fs0.bitmap)| < |Needed(off, |src|) - RefsOf(fs0, i)|
  {
    assert Grown(sb, fs0, fs2, i) by { hide Ref, Owns, ByteAt; }
    hide Ref, Owns, ByteAt, AllRefs, RefsOnly, Used, FreeSet, RefsOf, Needed;
    TakingStuck(sb, fs0, own0, fs1, fs2, own2, i, off, tot, |src|);
  }

  /** It has got to its end: there were enough free blocks for those that were missing. */
  lemma EnoughBlocks(sb: Super, fs1: Fs, own1: seq<Owner>, fs2: Fs, own2: seq<Owner>, i: nat, off: nat, n: nat)
    requires Inv(sb, fs1, own1) && Inv(sb, fs2, own2) && SameLost(own1, own2) && RefsAdded(sb, fs1, fs2, i)
    requires RefsOnly(fs1, fs2, i, off, n)
    requires AllRefs(fs2, i, off, n)
    ensures RefsOf(fs2, i) == RefsOf(fs1, i) + Needed(off, n)
    ensures |FreeSet(sb, fs1.bitmap)| == |FreeSet(sb, fs2.bitmap)| + |Needed(off, n) - RefsOf(fs1, i)|
  {
    hide Ref, Used, Owns, Needs;
    assert RefsOf(fs2, i) == RefsOf(fs1, i) + Needed(off, n);
    BlocksTaken(sb, fs1, own1, fs2, own2, i);
    assert RefsOf(fs2, i) - RefsOf(fs1, i) == Needed(off, n) - RefsOf(fs1, i);
  }

  /** It has stopped at a missing block with none free: there were too few. */
  lemma TooFewBlocks(sb: Super, fs1: Fs, own1: seq<Owner>, fs2: Fs, own2: seq<Owner>, i: nat, off: nat, n: nat)
    requires Inv(sb, fs1, own1) && Inv(sb, fs2, own2) && SameLost(own1, own2) && RefsAdded(sb, fs1, fs2, i)
    requires RefsOnly(fs1, fs2, i, off, n)
    requires !AllRefs(fs2, i, off, n)
    requires forall c: nat | c < sb.size :: Used(fs2.bitmap, c)
    ensures |FreeSet(sb, fs1.bitmap)| < |Needed(off, n) - RefsOf(fs1, i)|
  {
    hide Ref, Used, Owns, Needs;
    var k: nat :| k < REFS && Needs(k, off, n) && Ref(fs2, i, k) == 0;
    BlocksTaken(sb, fs1, own1, fs2, own2, i);
    var gained, missing := RefsOf(fs2, i) - RefsOf(fs1, i), Needed(off, n) - RefsOf(fs1, i);
    assert FreeSet(sb, fs2.bitmap) == {};
    assert gained <= missing - {k} && k in missing;
    SubsetSize(gained, missing - {k});
  }

  lemma {:induction false} SubsetSize(a: set<nat>, b: set<nat>)
    requires a <= b
    ensures |a| <= |b|
  {
    assert b == a + (b - a);
  }

  lemma SameRefsOf(fs1: Fs, fs2: Fs, i: nat)
    requires i < |fs1.inodes| && |fs1.inodes[i].addrs| == NDIRECT + 1 && fs1.inodes[i].addrs[NDIRECT] < |fs1.data|
    requires i < |fs2.inodes| && |fs2.inodes[i].addrs| == NDIRECT + 1 && fs2.inodes[i].addrs[NDIRECT] < |fs2.data|
    requires RefsKept(fs1, fs2, i)
    ensures RefsOf(fs1, i) == RefsOf(fs2, i)
  {
    hide Ref;
  }

  /** Truncation gives back a block for each reference. */
  lemma TruncGives(sb: Super, fs1: Fs, own1: seq<Owner>, fs2: Fs, own2: seq<Owner>, i: nat)
    requires Inv(sb, fs1, own1) && Inv(sb, fs2, own2) && i < |fs1.inodes|
    requires AllReleased(own1, own2, i) && OthersKept(sb, fs1, fs2, i)
    ensures RefsOf(fs2, i) == {} && |FreeSet(sb, fs2.bitmap)| == |FreeSet(sb, fs1.bitmap)| + |RefsOf(fs1, i)|
  {
    hide Ref, Used, Contents, NoHole;
    forall k: nat | k < REFS ensures Ref(fs2, i, k) == 0 {
      assert Ref(fs2, i, k) < sb.size ==> own2[Ref(fs2, i, k)] != Held(i, k);
    }
    forall j: nat | j < |fs1.inodes| && j != i ensures RefsKept(fs2, fs1, j) {
      assert RefsKept(fs1, fs2, j);
    }
    BlocksTaken(sb, fs2, own2, fs1, own1, i);
    assert RefsOf(fs1, i) - RefsOf(fs2, i) == RefsOf(fs1, i);
  }

  /** The condition of Writei in terms of references: none of the first thirteen is missing. */
  predicate AddrsThere(refs: set<nat>, off: nat, n: nat) {
    forall k: nat | k <= NDIRECT && Needs(k, off, n) :: k in refs
  }

  lemma ReadyRefs(fs: Fs, i: nat, off: nat, n: nat)
    requires i < |fs.inodes| && |fs.inodes[i].addrs| == NDIRECT + 1 && fs.inodes[i].addrs[NDIRECT] < |fs.data|
    requires off + n <= MAXFILE * BSIZE
    ensures AddrsReady(fs.inodes[i], off, n) <==> AddrsThere(RefsOf(fs, i), off, n)
  {
    hide WordAt;
    var d := fs.inodes[i];
    assert forall k: nat | k <= NDIRECT :: Ref(fs, i, k) == d.addrs[k];
    if AddrsThere(RefsOf(fs, i), off, n) {
      forall bn: nat | off / BSIZE <= bn < off / BSIZE + Span(off, n) ensures d.addrs[AddrSlot(bn)] != 0 {
        assert Needs(AddrSlot(bn), off, n);
      }
    }
    if AddrsReady(d, off, n) {
      forall k: nat | k <= NDIRECT && Needs(k, off, n) ensures k in RefsOf(fs, i) {
        var bn := if k < NDIRECT then k else (off + n - 1) / BSIZE;
        assert AddrSlot(bn) == k;
      }
    }
  }

  // ---- files as values ----------------------------------------------------------------------------------

  /** A file: its type, its size, all bytes it has blocks for, which of its references are there, and which of its
      addresses are on the disk as well. */
  datatype File = File(typ: int, size: nat, bytes: seq<Byte>, refs: set<nat>, saved: set<nat>)

  /** The addresses that the disk's copy of an inode has. */
  function SavedOf(d: Dinode): set<nat>
    requires |d.addrs| == NDIRECT + 1
  {
    set k: nat | k <= NDIRECT && d.addrs[k] != 0
  }

  /** The addresses among the references. */
  function AddrsOf(refs: set<nat>): set<nat> {
    set k: nat | k in refs && k <= NDIRECT
  }

  /** File i, of which the disk has the copy d. */
  ghost function FileAt(fs: Fs, i: nat, d: Dinode): File
    requires i < |fs.inodes| && |fs.inodes[i].addrs| == NDIRECT + 1 && fs.inodes[i].addrs[NDIRECT] < |fs.data|
    requires |d.addrs| == NDIRECT + 1
  {
    File(fs.inodes[i].typ, fs.inodes[i].size, AllBytes(fs, i), RefsOf(fs, i), SavedOf(d))
  }

  /** It has no hole. */
  predicate Whole(f: File) {
    Needed(0, f.size) <= f.refs
  }

  lemma WholeNoHole(sb: Super, fs: Fs, own: seq<Owner>, i: nat)
    requires Inv(sb, fs, own) && i < |fs.inodes|
    ensures Needed(0, fs.inodes[i].size) <= RefsOf(fs, i) <==> NoHole(fs, i)
  {
    NothingMissing(sb, fs, own, i, 0, fs.inodes[i].size);
    hide Ref, Used, Owns;
    var n := fs.inodes[i].size;
    if Needed(0, n) <= RefsOf(fs, i) {
      forall bn: nat | bn * BSIZE < n ensures Mapped(fs, i, bn) {
        NeededMapped(fs, i, 0, n, bn * BSIZE);
      }
    }
  }

  /** The contents are the first bytes. */
  lemma ContentsFirst(sb: Super, fs: Fs, own: seq<Owner>, i: nat)
    requires Inv(sb, fs, own) && i < |fs.inodes|
    ensures Contents(fs, i) == AllBytes(fs, i)[..fs.inodes[i].size]
  {
    hide ByteAt, Owns;
  }

  // ---- forgetting an inode ------------------------------------------------------------------------------

  /** The disk's copy lacks nothing of the one in memory but addresses. */
  ghost predicate Behind(d: Dinode, m: Dinode) {
    && |d.addrs| == |m.addrs| == NDIRECT + 1 && d == m.(addrs := d.addrs)
    && forall k: nat | k <= NDIRECT :: d.addrs[k] == 0 || d.addrs[k] == m.addrs[k]
  }

  /** Whether a reference can be found from the addresses on the disk. */
  predicate Visible(saved: set<nat>, k: nat) {
    if k <= NDIRECT then k in saved else NDIRECT in saved
  }

  function Blanked(bytes: seq<Byte>, saved: set<nat>): (r: seq<Byte>)
    ensures |r| == |bytes|
    ensures forall p: nat | p < |r| :: r[p] == if Visible(saved, SlotOf(p / BSIZE)) then bytes[p] else 0
  {
    if |bytes| == 0 then []
    else
      var n := |bytes| - 1;
      Blanked(bytes[..n], saved) + [if Visible(saved, SlotOf(n / BSIZE)) then bytes[n] else 0]
  }

  /** What is left of a file when only the disk's copy of its inode is. */
  function Forgotten(f: File): File {
    File(f.typ, f.size, Blanked(f.bytes, f.saved), RefsLeft(f.refs, f.saved), f.saved)
  }

  function RefsLeft(refs: set<nat>, saved: set<nat>): set<nat> {
    set k | k in refs && Visible(saved, k)
  }

  ghost function LostSet(own: seq<Owner>): set<nat> {
    set b: nat | b < |own| && own[b].Lost?
  }

  /** The owners when inode i has only the references left that it has in fs. */
  ghost function Disown(sb: Super, fs: Fs, own: seq<Owner>, i: nat, n: nat): (r: seq<Owner>)
    requires Wf(sb, fs) && i < |fs.inodes| && n <= |own|
    ensures |r| == n
    ensures forall b: nat | b < n :: r[b] == if Dropped(sb, fs, own, i, b) then Lost else own[b]
  {
    if n == 0 then []
    else Disown(sb, fs, own, i, n - 1) + [if Dropped(sb, fs, own, i, n - 1) then Lost else own[n - 1]]
  }

  ghost predicate Dropped(sb: Super, fs: Fs, own: seq<Owner>, i: nat, b: nat)
    requires Wf(sb, fs) && i < |fs.inodes| && b < |own|
  {
    own[b].Held? && own[b].inum == i && own[b].k < REFS && Ref(fs, i, own[b].k) == 0
  }

  /** Which references and bytes the disk's copy leaves. */
  lemma ForgetRefs(sb: Super, fs: Fs, fs2: Fs, i: nat, d: Dinode)
    requires Wf(sb, fs) && Wf(sb, fs2) && i < |fs.inodes| && Behind(d, fs.inodes[i])
    requires fs2 == Fs(fs.bitmap, fs.inodes[i := d], fs.data)
    ensures forall m: nat | m < REFS :: Ref(fs2, i, m) == if Visible(SavedOf(d), m) then Ref(fs, i, m) else 0
    ensures forall j: nat, m: nat {:trigger Ref(fs2, j, m)} | j < |fs.inodes| && j != i && m < REFS ::
              Ref(fs2, j, m) == Ref(fs, j, m)
  {
    hide WordAt;
  }

  lemma ForgetBytes(sb: Super, fs: Fs, fs2: Fs, i: nat, d: Dinode)
    requires Wf(sb, fs) && Wf(sb, fs2) && i < |fs.inodes| && Behind(d, fs.inodes[i])
    requires fs2 == Fs(fs.bitmap, fs.inodes[i := d], fs.data)
    ensures AllBytes(fs2, i) == Blanked(AllBytes(fs, i), SavedOf(d))
    ensures RefsOf(fs2, i) == RefsLeft(RefsOf(fs, i), SavedOf(d))
    ensures OthersKept(sb, fs, fs2, i)
  {
    ForgetRefs(sb, fs, fs2, i, d);
    hide Ref, Visible, SavedOf;
    forall p: nat | p < MAXFILE * BSIZE
      ensures ByteAt(fs2, i, p) == if Visible(SavedOf(d), SlotOf(p / BSIZE)) then ByteAt(fs, i, p) else 0
    {}
    SameContents(sb, fs, fs2, i);
    hide ByteAt, OthersKept;
  }

  /** From fs to fs2 inode i has lost references, and nothing else happened to any. */
  ghost predicate RefsDropped(sb: Super, fs: Fs, fs2: Fs, i: nat)
    requires Wf(sb, fs) && Wf(sb, fs2)
  {
    && |fs2.inodes| == |fs.inodes| && i < |fs.inodes| && fs2.bitmap == fs.bitmap
    && forall j: nat, m: nat {:trigger Ref(fs2, j, m)} {:trigger Ref(fs, j, m)} | j < |fs.inodes| && m < REFS ::
         Ref(fs2, j, m) == Ref(fs, j, m) || (j == i && Ref(fs2, j, m) == 0)
  }

  lemma ForgetDrops(sb: Super, fs: Fs, fs2: Fs, i: nat, d: Dinode)
    requires Wf(sb, fs) && Wf(sb, fs2) && i < |fs.inodes| && Behind(d, fs.inodes[i])
    requires fs2 == Fs(fs.bitmap, fs.inodes[i := d], fs.data)
    ensures RefsDropped(sb, fs, fs2, i)
  {
    ForgetRefs(sb, fs, fs2, i, d);
    hide Ref, Visible, SavedOf;
  }

  lemma ForgetOwns(sb: Super, fs: Fs, own: seq<Owner>, fs2: Fs, i: nat)
    requires Inv(sb, fs, own) && Wf(sb, fs2) && RefsDropped(sb, fs, fs2, i)
    ensures Inv(sb, fs2, Disown(sb, fs2, own, i, |own|))
  {
    hide Ref, Used, Disown;
    var own2 := Disown(sb, fs2, own, i, |own|);
    forall j: nat, m: nat | j < |fs2.inodes| && m < REFS && Ref(fs2, j, m) != 0
      ensures Ref(fs2, j, m) < sb.size && own2[Ref(fs2, j, m)] == Held(j, m)
    {
      assert own[Ref(fs, j, m)] == Held(j, m);
      assert !Dropped(sb, fs2, own, i, Ref(fs, j, m));
    }
    forall b: nat | b < sb.size && own2[b].Held?
      ensures own2[b].inum < |fs2.inodes| && own2[b].k < REFS && Ref(fs2, own2[b].inum, own2[b].k) == b
    {
      assert own2[b] == own[b] && !Dropped(sb, fs2, own, i, b);
    }
  }

  lemma GoneLost(sb: Super, fs: Fs, own: seq<Owner>, fs2: Fs, i: nat)
    requires Inv(sb, fs, own) && Wf(sb, fs2) && RefsDropped(sb, fs, fs2, i)
    ensures |LostSet(Disown(sb, fs2, own, i, |own|)) - LostSet(own)| == |RefsOf(fs, i) - RefsOf(fs2, i)|
  {
    hide Ref, Used, Disown, Owns, LostSet, RefsOf;
    var gone, more := RefsOf(fs, i) - RefsOf(fs2, i), LostSet(Disown(sb, fs2, own, i, |own|)) - LostSet(own);
    RefsAreRefs(fs, i);
    var f := map k | k in gone :: Ref(fs, i, k);
    forall k | k in gone ensures f[k] in more && f[k] < |own| && own[f[k]] == Held(i, k) {
      NewlyLost(sb, fs, own, fs2, i, k);
    }
    forall b | b in more ensures exists k :: k in gone && f[k] == b {
      LostFrom(sb, fs, own, fs2, i, b);
      assert own[b].k in gone && f[own[b].k] == b;
    }
    ImageSize(gone, f, more);
  }

  lemma RefsAreRefs(fs: Fs, i: nat)
    requires i < |fs.inodes| && |fs.inodes[i].addrs| == NDIRECT + 1 && fs.inodes[i].addrs[NDIRECT] < |fs.data|
    ensures forall k | k in RefsOf(fs, i) :: k < REFS
  {
  }

  lemma FewerRefs(sb: Super, fs: Fs, fs2: Fs, i: nat)
    requires Wf(sb, fs) && Wf(sb, fs2) && RefsDropped(sb, fs, fs2, i)
    ensures RefsOf(fs2, i) <= RefsOf(fs, i)
  {
    hide Ref;
  }

  /** The references that are gone are of blocks that are lost. */
  lemma ForgetLost(sb: Super, fs: Fs, own: seq<Owner>, fs2: Fs, i: nat)
    requires Inv(sb, fs, own) && Wf(sb, fs2) && RefsDropped(sb, fs, fs2, i)
    ensures RefsOf(fs2, i) <= RefsOf(fs, i)
    ensures |LostSet(Disown(sb, fs2, own, i, |own|))| == |LostSet(own)| + |RefsOf(fs, i)| - |RefsOf(fs2, i)|
  {
    hide Ref, Used, Disown, Owns, LostSet, RefsOf;
    GoneLost(sb, fs, own, fs2, i);
    FewerRefs(sb, fs, fs2, i);
    LostKept(sb, fs2, own, i);
    SetParts(LostSet(Disown(sb, fs2, own, i, |own|)), LostSet(own));
    SetParts(RefsOf(fs, i), RefsOf(fs2, i));
  }

  lemma SetParts(a: set<nat>, b: set<nat>)
    requires b <= a
    ensures |a - b| == |a| - |b|
  {
    assert a == b + (a - b);
  }

  lemma LostKept(sb: Super, fs2: Fs, own: seq<Owner>, i: nat)
    requires Wf(sb, fs2) && i < |fs2.inodes|
    ensures LostSet(own) <= LostSet(Disown(sb, fs2, own, i, |own|))
  {
    hide Ref;
  }

  lemma NewlyLost(sb: Super, fs: Fs, own: seq<Owner>, fs2: Fs, i: nat, k: nat)
    requires Inv(sb, fs, own) && Wf(sb, fs2) && RefsDropped(sb, fs, fs2, i) && k in RefsOf(fs, i) - RefsOf(fs2, i)
    ensures Ref(fs, i, k) < |own| && own[Ref(fs, i, k)] == Held(i, k)
    ensures Ref(fs, i, k) in LostSet(Disown(sb, fs2, own, i, |own|)) - LostSet(own)
  {
    hide Ref, Used, Disown;
    assert own[Ref(fs, i, k)] == Held(i, k);
    assert Dropped(sb, fs2, own, i, Ref(fs, i, k));
  }

  lemma LostFrom(sb: Super, fs: Fs, own: seq<Owner>, fs2: Fs, i: nat, b: nat)
    requires Inv(sb, fs, own) && Wf(sb, fs2) && RefsDropped(sb, fs, fs2, i)
    requires b in LostSet(Disown(sb, fs2, own, i, |own|)) - LostSet(own)
    ensures b < |own| && own[b].Held? && own[b].k in RefsOf(fs, i) - RefsOf(fs2, i) && Ref(fs, i, own[b].k) == b
  {
    hide Ref, Used, Disown;
    assert Dropped(sb, fs2, own, i, b);
  }

  /** Which blocks are lost does not depend on how the owners are named. */
  lemma LostUnique(sb: Super, fs: Fs, own1: seq<Owner>, own2: seq<Owner>)
    requires Inv(sb, fs, own1) && Inv(sb, fs, own2)
    ensures SameLost(own1, own2)
  {
    hide Ref, Used;
    forall b: nat | b < sb.size ensures own1[b].Held? <==> own2[b].Held? {
      assert own1[b].Held? ==> Ref(fs, own1[b].inum, own1[b].k) == b;
      assert own2[b].Held? ==> Ref(fs, own2[b].inum, own2[b].k) == b;
    }
  }

  lemma OwnedIs(sb: Super, fs: Fs, own: seq<Owner>)
    requires Inv(sb, fs, own)
    ensures Owned(sb, fs) <==> LostSet(own) == {}
  {
    hide Inv;
    if LostSet(own) == {} {
      forall b: nat | b < |own| ensures !own[b].Lost? {
        assert b !in LostSet(own);
      }
    }
    if Owned(sb, fs) {
      var own2 :| Inv(sb, fs, own2) && NoneLost(own2);
      LostUnique(sb, fs, own, own2);
    }
  }

  /** The inode's own addresses are its references. */
  lemma SavedAll(fs: Fs, i: nat)
    requires i < |fs.inodes| && |fs.inodes[i].addrs| == NDIRECT + 1 && fs.inodes[i].addrs[NDIRECT] < |fs.data|
    ensures SavedOf(fs.inodes[i]) == AddrsOf(RefsOf(fs, i))
  {
    forall k: nat | k <= NDIRECT ensures k in RefsOf(fs, i) <==> k in SavedOf(fs.inodes[i]) {
      assert Ref(fs, i, k) == fs.inodes[i].addrs[k];
    }
  }
}
