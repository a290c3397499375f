/** mkfs of src/mkfs.c: the image it builds satisfies the block-ownership invariant, holds the given files, and has
    no holes except, for some directory sizes, one in the root directory. */
module Mkfs {
  import opened Seqs
  import opened Blocks
  import opened Bitmap
  import opened FsModel

  const FSSIZE := 1000
  const LOGSIZE := 30
  const NINODES := 200
  const NBITMAP := FSSIZE / 4096 + 1
  const NINODEBLOCKS := NINODES / 8 + 1
  const NMETA := 2 + LOGSIZE + NINODEBLOCKS + NBITMAP
  const T_DIR := 1
  const T_FILE := 2
  const ROOTINO := 1
  const SUPER := Super(FSSIZE, NMETA, 2 + LOGSIZE, 2 + LOGSIZE + NINODEBLOCKS)
  const DIRENT := 16

  /** No device, and at most one link: all that mkfs makes. */
  predicate AllSimple(inodes: seq<Dinode>) {
    forall i: nat | i < |inodes| ::
      0 <= inodes[i].typ <= T_FILE && inodes[i].major == inodes[i].minor == 0 && 0 <= inodes[i].nlink <= 1
  }

  function FreeDinode(): Dinode { Dinode(0, 0, 0, 0, 0, Zeros(NDIRECT + 1)) }

  // ---- the empty image ----------------------------------------------------------------------------

  ghost function FirstOwn(n: nat): (r: seq<Owner>)
    ensures |r| == n && forall b: nat | b < n :: r[b] == if b < NMETA then Meta else Free
  {
    if n == 0 then [] else FirstOwn(n - 1) + [if n - 1 < NMETA then Meta else Free]
  }

  ghost function FirstBits(n: nat): (r: seq<Block>)
    requires n <= BPB
    ensures |r| == 1 && forall b: nat | b < BPB :: Used(r, b) == (b < n)
  {
    ZeroBits();
    if n == 0 then [Zero()] else Mark(FirstBits(n - 1), n - 1)
  }

  /** The image once all sectors are zeroed: the metadata blocks are in use, and no inode has a block. */
  lemma EmptyReady()
    ensures Ready(Fs(FirstBits(NMETA), Copies(FreeDinode(), NINODEBLOCKS * 8), Copies(Zero(), FSSIZE)),
              FirstOwn(FSSIZE), NMETA)
  {
    hide Zero, WordAt, Used, FirstBits, Copies, FirstOwn, Ref;
    var fs := Fs(FirstBits(NMETA), Copies(FreeDinode(), NINODEBLOCKS * 8), Copies(Zero(), FSSIZE));
    forall i: nat, k: nat | i < |fs.inodes| && k < REFS ensures Ref(fs, i, k) == 0 {
      FreshRefs(fs, i, k);
    }
  }

  // ---- the root directory -------------------------------------------------------------------------

  /** A directory entry: a 16-bit inode number and 14 bytes of name. */
  function Entry(inum: nat, name: seq<Byte>): (r: seq<Byte>)
    requires inum < 0x1_0000
    ensures |r| == DIRENT
  {
    [inum % 256, inum / 256] + if |name| >= 14 then name[..14] else name + Zeros(14 - |name|)
  }

  /** A leading underscore of a file name is skipped. */
  function Strip(name: seq<Byte>): seq<Byte> {
    if |name| > 0 && name[0] == 95 then name[1..] else name
  }

  /** The entries ".", ".." and one for each file, whose inodes are 2, 3, ... */
  function Dir(names: seq<seq<Byte>>): (r: seq<Byte>)
    requires |names| < NINODES
    ensures |r| == DIRENT * (|names| + 2)
  {
    if |names| == 0 then Entry(ROOTINO, [46]) + Entry(ROOTINO, [46, 46])
    else Dir(names[..|names| - 1]) + Entry(|names| + 1, Strip(names[|names| - 1]))
  }

  /** The image holds the root directory and the files, all of them without holes. */
  ghost predicate Holds(fs: Fs, names: seq<seq<Byte>>, files: seq<seq<Byte>>) {
    && Wf(SUPER, fs) && |files| <= |names| <= NINODES - 2 && |fs.inodes| == NINODEBLOCKS * 8
    && fs.inodes[ROOTINO].typ == T_DIR && Contents(fs, ROOTINO) == Dir(names)
    && NoHole(fs, ROOTINO) && Tight(fs, ROOTINO, fs.inodes[ROOTINO].size)
    && forall i: nat | 2 <= i < |files| + 2 ::
         Contents(fs, i) == files[i - 2] && NoHole(fs, i) && fs.inodes[i].typ == T_FILE
           && Tight(fs, i, fs.inodes[i].size)
  }

  /** A change to an inode that holds none of the files yet, and not the directory. */
  lemma HoldsKept(fs1: Fs, fs2: Fs, i: nat, names: seq<seq<Byte>>, files: seq<seq<Byte>>)
    requires Holds(fs1, names, files) && Wf(SUPER, fs2) && OthersKept(SUPER, fs1, fs2, i) && i >= |files| + 2
    requires TightKept(fs1, fs2, i)
    ensures Holds(fs2, names, files)
  {
  }

  /** A new directory entry. */
  lemma HoldsEntry(fs1: Fs, fs2: Fs, name: seq<Byte>, names: seq<seq<Byte>>, files: seq<seq<Byte>>)
    requires Holds(fs1, names, files) && Wf(SUPER, fs2) && OthersKept(SUPER, fs1, fs2, ROOTINO) && |names| < NINODES - 2
    requires Contents(fs2, ROOTINO) == Contents(fs1, ROOTINO) + Entry(|names| + 2, Strip(name))
    requires NoHole(fs2, ROOTINO) && Tight(fs2, ROOTINO, fs2.inodes[ROOTINO].size) && fs2.inodes[ROOTINO].typ == T_DIR
    requires TightKept(fs1, fs2, ROOTINO)
    ensures Holds(fs2, names + [name], files)
  {
  }

  /** One more file. */
  lemma HoldsFile(fs: Fs, file: seq<Byte>, names: seq<seq<Byte>>, files: seq<seq<Byte>>)
    requires Holds(fs, names, files) && |files| < |names|
    requires Contents(fs, |files| + 2) == file && NoHole(fs, |files| + 2) && fs.inodes[|files| + 2].typ == T_FILE
    requires Tight(fs, |files| + 2, fs.inodes[|files| + 2].size)
    ensures Holds(fs, names, files + [file])
  {
    hide Contents, NoHole, Tight;
  }

  lemma RootSize(fs: Fs, names: seq<seq<Byte>>, files: seq<seq<Byte>>)
    requires Holds(fs, names, files)
    ensures fs.inodes[ROOTINO].size == DIRENT * (|names| + 2)
  {
  }

  // ---- construction -------------------------------------------------------------------------------

  /** Inv with a bitmap that is set exactly below `used`. */
  ghost predicate Filled(bm: seq<Block>, used: nat) {
    FSSIZE <= |bm| * BPB && forall b: nat | b < FSSIZE :: Used(bm, b) == (b < used)
  }

  /** Only the bits count. */
  lemma SameBits(fs1: Fs, fs2: Fs, own: seq<Owner>)
    requires Inv(SUPER, fs1, own) && fs2.inodes == fs1.inodes && fs2.data == fs1.data && FSSIZE <= |fs2.bitmap| * BPB
    requires forall b: nat | b < FSSIZE :: Used(fs2.bitmap, b) == Used(fs1.bitmap, b)
    ensures Inv(SUPER, fs2, own)
    ensures forall j: nat | j < |fs1.inodes| ::
              && Contents(fs2, j) == Contents(fs1, j) && AllBytes(fs2, j) == AllBytes(fs1, j)
              && NoHole(fs2, j) == NoHole(fs1, j) && RefsOf(fs2, j) == RefsOf(fs1, j)
  {
    SameRefs(SUPER, fs1, fs2);
    hide Ref, Used;
    forall j: nat | j < |fs1.inodes|
      ensures Contents(fs2, j) == Contents(fs1, j) && AllBytes(fs2, j) == AllBytes(fs1, j)
      ensures NoHole(fs2, j) == NoHole(fs1, j)
      ensures RefsOf(fs2, j) == RefsOf(fs1, j)
    {
      forall pos: nat | pos < MAXFILE * BSIZE ensures ByteAt(fs2, j, pos) == ByteAt(fs1, j, pos) {}
      forall bn: nat | bn < MAXFILE ensures Mapped(fs2, j, bn) == Mapped(fs1, j, bn) {}
      hide ByteAt, Mapped;
    }
  }

  /** balloc of mkfs: the first bitmap block, with the bits of the first `used` blocks set. */
  method Balloc(used: nat) returns (ok: bool, buf: Block)
    ensures ok <==> used < BSIZE * 8
    ensures ok ==> forall b: nat | b < BPB :: Used([buf], b) == (b < used)
  {
    buf := Zero();
    if used >= BSIZE * 8 {
      return false, buf;
    }
    ZeroBits();
    hide Used, Zero, Mark;
    var i := 0;
    while i < used
      invariant i <= used
      invariant forall b: nat | b < BPB :: Used([buf], b) == (b < i)
    {
      var bm := Mark([buf], i);
      buf := bm[0];
      assert bm == [buf];
      i := i + 1;
    }
    ok := true;
  }

  lemma ZeroBit(k: nat)
    ensures !Bit(0, k)
  {
  }

  lemma ZeroBits()
    ensures forall b: nat | b < BPB :: !Used([Zero()], b)
  {
    forall b: nat | b < BPB ensures !Used([Zero()], b) {
      ZeroBit(b % 8);
    }
  }

  /** The image under construction: fs, with the inode being appended to in place, is well owned; the blocks handed
      out so far are those below `used`, and the rest are zero. */
  ghost predicate Ready(fs: Fs, own: seq<Owner>, used: nat) {
    && Inv(SUPER, fs, own) && Filled(fs.bitmap, used) && NMETA <= used <= FSSIZE && |fs.data| == FSSIZE
    && NoneLost(own) && forall b: nat | used <= b < FSSIZE :: fs.data[b] == Zero()
  }

  /** The file has exactly the blocks that `size` bytes take, and the indirect block exactly if they need it. */
  ghost predicate Exact(fs: Fs, i: nat, size: nat)
    requires i < |fs.inodes|
    requires |fs.inodes[i].addrs| == NDIRECT + 1 && fs.inodes[i].addrs[NDIRECT] < |fs.data|
  {
    && (forall bn: nat | bn < MAXFILE :: Mapped(fs, i, bn) == (bn * BSIZE < size))
    && ((fs.inodes[i].addrs[NDIRECT] != 0) == (size > NDIRECT * BSIZE))
  }

  lemma ReadyInv(fs: Fs, own: seq<Owner>, used: nat)
    requires Ready(fs, own, used)
    ensures Inv(SUPER, fs, own)
  {
  }

  lemma ReadyWrite(fs1: Fs, fs2: Fs, own: seq<Owner>, used: nat, x: nat)
    requires Ready(fs1, own, used) && Inv(SUPER, fs2, own) && x < used && fs2.bitmap == fs1.bitmap
    requires |fs2.data| == |fs1.data| && forall b: nat | b < |fs1.data| && b != x :: fs2.data[b] == fs1.data[b]
    ensures Ready(fs2, own, used)
  {
    hide Inv;
  }

  /** And its bytes beyond them are zero. */
  ghost predicate Tight(fs: Fs, i: nat, size: nat)
    requires i < |fs.inodes|
    requires |fs.inodes[i].addrs| == NDIRECT + 1 && fs.inodes[i].addrs[NDIRECT] < |fs.data|
  {
    Exact(fs, i, size) && forall pos: nat | size <= pos < MAXFILE * BSIZE :: ByteAt(fs, i, pos) == 0
  }

  /** So had and have the files other than i. */
  ghost predicate TightKept(fs1: Fs, fs2: Fs, i: nat)
    requires Wf(SUPER, fs1) && Wf(SUPER, fs2)
  {
    && |fs1.inodes| == |fs2.inodes|
    && forall j: nat | j < |fs1.inodes| && j != i
    && Tight(fs1, j, fs1.inodes[j].size) :: Tight(fs2, j, fs2.inodes[j].size)
  }

  /** How many blocks a file of n bytes takes, with its indirect block. */
  function BlocksOf(n: nat): nat {
    var k := (n + BSIZE - 1) / BSIZE;
    if k > NDIRECT then k + 1 else k
  }

  lemma NoBlocks()
    ensures BlocksOf(0) == 0
  {
  }

  lemma BlocksMore(n: nat, m: nat)
    requires n <= m
    ensures BlocksOf(n) <= BlocksOf(m)
  {
  }

  /** What one more file block costs. */
  lemma BlocksStep(pos: nat, m: nat)
    requires 0 < m && pos % BSIZE + m <= BSIZE
    ensures BlocksOf(pos + m) == BlocksOf(pos) + (if pos % BSIZE != 0 then 0 else 1)
                                 + (if pos / BSIZE >= NDIRECT && pos <= NDIRECT * BSIZE then 1 else 0)
  {
  }

  class Image {
    var freeblock: nat
    var freeinode: nat
    var inodes: seq<Dinode>
    var data: seq<Block>
    ghost var bm: seq<Block>
    ghost var own: seq<Owner>

    /** The image with din for inode inum. */
    ghost function View(inum: nat, din: Dinode): Fs
      requires inum < |inodes|
      reads this
    {
      Fs(bm, inodes[inum := din], data)
    }

    ghost predicate Good(inum: nat, din: Dinode)
      reads this
    {
      && inum < |inodes| && |din.addrs| == NDIRECT + 1 && din.addrs[NDIRECT] < FSSIZE && din.size <= MAXFILE * BSIZE
      && |data| == |own| == FSSIZE <= |bm| * BPB
      && Ready(View(inum, din), own, freeblock)
    }

    /** All sectors zeroed, nothing handed out yet. */
    constructor ()
      ensures Valid() && freeinode == 1 && freeblock == NMETA && fresh(this)
    {
      freeblock := NMETA;
      freeinode := 1;
      inodes := Copies(FreeDinode(), NINODEBLOCKS * 8);
      data := Copies(Zero(), FSSIZE);
      bm := FirstBits(NMETA);
      own := FirstOwn(FSSIZE);
      EmptyReady();
    }

    /** din.addrs[k] = freeblock++ */
    method NewAddr(inum: nat, din: Dinode, k: nat) returns (ok: bool, din2: Dinode)
      requires Good(inum, din) && k <= NDIRECT && din.addrs[k] == 0
      modifies this`freeblock, this`bm, this`own
      ensures ok <==> old(freeblock) < FSSIZE
      ensures ok ==> freeblock == old(freeblock) + 1
      ensures ok ==> Good(inum, din2) && din2 == SetAddr(din, k, din2.addrs[k]) && 0 < din2.addrs[k] < FSSIZE
      ensures ok ==> Extended(SUPER, old(View(inum, din)), old(own), View(inum, din2), own, inum)
      ensures ok ==>
                forall m: nat | m < REFS && m != k ::
                  Ref(View(inum, din2), inum, m) == old(Ref(View(inum, din), inum, m))
    {
      hide Ref, Used, Mark, Inv, Extended, Zero;
      if freeblock == FSSIZE {
        return false, din;
      }
      ghost var fs := View(inum, din);
      AddrRef(fs, inum, k);
      AddSlot(SUPER, fs, own, inum, k, freeblock);
      din2 := SetAddr(din, k, freeblock);
      bm := Mark(bm, freeblock);
      own := own[freeblock := Held(inum, k)];
      assert View(inum, din2) == AllocSlot(fs, inum, k, freeblock) by {
        assert data[freeblock := Zero()] == data;
      }
      freeblock := freeblock + 1;
      ok := true;
    }

    /** indirect[j] = freeblock++, written back */
    method NewEntry(inum: nat, din: Dinode, j: nat) returns (ok: bool, x: nat)
      requires Good(inum, din) && j < NINDIRECT && din.addrs[NDIRECT] != 0
      requires Ref(View(inum, din), inum, NDIRECT + 1 + j) == 0
      modifies this`freeblock, this`bm, this`own, this`data
      ensures ok <==> old(freeblock) < FSSIZE
      ensures ok ==> freeblock == old(freeblock) + 1
      ensures ok ==> Good(inum, din) && 0 < x < FSSIZE && Ref(View(inum, din), inum, NDIRECT + 1 + j) == x
      ensures ok ==> Extended(SUPER, old(View(inum, din)), old(own), View(inum, din), own, inum)
      ensures ok ==>
                forall m: nat | m < REFS && m != NDIRECT + 1 + j ::
                  Ref(View(inum, din), inum, m) == old(Ref(View(inum, din), inum, m))
    {
      hide Ref, Used, Mark, Inv, Extended, Zero, PutWord, WordAt;
      if freeblock == FSSIZE {
        return false, 0;
      }
      ghost var fs := View(inum, din);
      AddrRef(fs, inum, NDIRECT);
      IndirectUsed(fs, own, inum, freeblock);
      AddEntry(SUPER, fs, own, inum, j, freeblock);
      x := freeblock;
      assert data[x := Zero()] == data;
      data := PutEntry(data, din.addrs[NDIRECT], j, x);
      bm := Mark(bm, x);
      own := own[x := Held(inum, NDIRECT + 1 + j)];
      assert View(inum, din) == AllocEntry(fs, inum, j, x);
      freeblock := freeblock + 1;
      ok := true;
    }

    /** The disk block of file block fbn, handed out when missing. */
    method GetBlock(inum: nat, din: Dinode, fbn: nat) returns (ok: bool, din2: Dinode, x: nat)
      requires Good(inum, din) && fbn < MAXFILE
      modifies this`freeblock, this`bm, this`own, this`data
      ensures ok ==> Good(inum, din2) && 0 < x < freeblock && x == Ref(View(inum, din2), inum, SlotOf(fbn))
      ensures ok ==> Extended(SUPER, old(View(inum, din)), old(own), View(inum, din2), own, inum)
      ensures ok ==>
                forall m: nat | m < REFS && m != SlotOf(fbn) && m != NDIRECT ::
                  Ref(View(inum, din2), inum, m) == old(Ref(View(inum, din), inum, m))
      ensures ok ==> (din2.addrs[NDIRECT] != 0 <==> fbn >= NDIRECT || din.addrs[NDIRECT] != 0)
      ensures ok <==> old(freeblock) + Price(old(View(inum, din)), inum, fbn) <= FSSIZE
      ensures ok ==> freeblock == old(freeblock) + Price(old(View(inum, din)), inum, fbn)
    {
      hide Ref, Used, Mark, Inv, Extended, Zero, WordAt;
      PriceIs(View(inum, din), inum, fbn);
      ok, din2, x := true, din, 0;
      ghost var fs0, own0 := View(inum, din), own;
      ExtendedSelf(SUPER, fs0, own, inum);
      if fbn < NDIRECT {
        if din2.addrs[fbn] == 0 {
          ok, din2 := NewAddr(inum, din, fbn);
          if !ok {
            return;
          }
        }
        AddrRef(View(inum, din2), inum, fbn);
        x := din2.addrs[fbn];
      } else {
        if din2.addrs[NDIRECT] == 0 {
          ok, din2 := NewAddr(inum, din, NDIRECT);
          if !ok {
            return;
          }
        }
        ghost var fs1, own1 := View(inum, din2), own;
        EntryRef(fs1, inum, fbn - NDIRECT);
        x := WordAt(data[din2.addrs[NDIRECT]], fbn - NDIRECT);
        if x == 0 {
          ok, x := NewEntry(inum, din2, fbn - NDIRECT);
          if !ok {
            return;
          }
          ExtendedTwice(SUPER, fs0, own0, fs1, own1, View(inum, din2), own, inum);
        }
      }
      IndirectUsed(View(inum, din2), own, inum, freeblock);
    }

    /** One round of the loop of iappend. */
    method AppendRound(inum: nat, din: Dinode, p: seq<Byte>, off: nat, tot: nat, ghost fs0: Fs)
      returns (ok: bool, din2: Dinode, next: nat)
      requires Good(inum, din) && tot < |p| && (tot == 0 || (off + tot) % BSIZE == 0) && (off + tot) / BSIZE < MAXFILE
      requires Writing(SUPER, fs0, View(inum, din), own, inum, off, p, tot) && Exact(View(inum, din), inum, off + tot)
      modifies this`freeblock, this`bm, this`own, this`data
      ensures ok ==> Good(inum, din2) && tot < next <= |p| && (next == |p| || (off + next) % BSIZE == 0)
      ensures ok ==>
                Writing(SUPER, fs0, View(inum, din2), own, inum, off, p, next)
                  && Exact(View(inum, din2), inum, off + next)
      ensures ok ==> freeblock == old(freeblock) + BlocksOf(off + next) - BlocksOf(off + tot)
      ensures !ok ==> old(freeblock) + BlocksOf(off + |p|) - BlocksOf(off + tot) > FSSIZE
    {
      hide Ref, Used, Inv, Extended, Zero, WordAt, Writing, Splice, BlocksOf, Price, Ready, Exact;
      ghost var fs1, own1 := View(inum, din), own;
      var fbn := (off + tot) / BSIZE;
      var n1 := if |p| - tot < BSIZE - (off + tot) % BSIZE then |p| - tot else BSIZE - (off + tot) % BSIZE;
      BlocksStep(off + tot, n1);
      BlocksMore(off + tot + n1, off + |p|);
      ExactPrice(fs1, inum, off + tot);
      var x;
      ok, din2, x := GetBlock(inum, din, fbn);
      if !ok {
        return false, din, tot;
      }
      ghost var fs2 := View(inum, din2);
      data := data[x := Splice(data[x], (off + tot) % BSIZE, p[tot..tot + n1])];
      next := tot + n1;
      WritingStep(SUPER, fs0, fs1, own1, fs2, own, View(inum, din2), inum, off, p, tot, n1, x);
      WritingInv(SUPER, fs0, View(inum, din2), own, inum, off, p, next);
      ReadyWrite(fs2, View(inum, din2), own, freeblock, x);
      InvWf(SUPER, fs1, own1) by { ReadyInv(fs1, own1, old(freeblock)); }
      InvWf(SUPER, View(inum, din2), own);
      ExactNext(fs1, View(inum, din2), inum, off + tot, n1);
    }

    /** What is on the image so far, and the blocks and inodes still to be handed out. */
    ghost predicate Valid()
      reads this
    {
      && |data| == |own| == FSSIZE <= |bm| * BPB && |inodes| == NINODEBLOCKS * 8 && 1 <= freeinode <= |inodes|
      && NMETA <= freeblock <= FSSIZE
      && Wf(SUPER, Fs(bm, inodes, data)) && Ready(Fs(bm, inodes, data), own, freeblock)
      && (forall i: nat | i == 0 || freeinode <= i < |inodes| :: inodes[i] == FreeDinode())
      && AllSimple(inodes)
    }

    ghost function Built(): Fs
      reads this
    {
      Fs(bm, inodes, data)
    }

    /** iappend.  Its assertion stops mkfs when the file gets too large. */
    method Iappend(inum: nat, p: seq<Byte>) returns (ok: bool)
      requires Valid() && 0 < inum < freeinode && Tight(Built(), inum, inodes[inum].size)
      modifies this`freeblock, this`bm, this`own, this`data, this`inodes
      ensures ok <==> var size := old(inodes[inum].size);
                      size + |p| <= MAXFILE * BSIZE && old(freeblock) + BlocksOf(size + |p|) - BlocksOf(size) <= FSSIZE
      ensures ok ==>
                freeblock == old(freeblock) + BlocksOf(old(inodes[inum].size) + |p|) - BlocksOf(old(inodes[inum].size))
      ensures ok ==> Valid() && OthersKept(SUPER, old(Built()), Built(), inum)
      ensures ok ==>
                Contents(Built(), inum) == old(Contents(Built(), inum)) + p && Tight(Built(), inum, inodes[inum].size)
      ensures ok ==> inodes[inum] == old(inodes[inum]).(size := inodes[inum].size, addrs := inodes[inum].addrs)
      ensures ok ==> NoHole(Built(), inum)
      ensures ok ==> TightKept(old(Built()), Built(), inum)
    {
      hide Ref, Used, Owns, Zero, WordAt, Writing, FreeDinode, ByteAt, Slice, BlocksOf;
      var din := inodes[inum];
      var off := din.size;
      ghost var fs0 := Built();
      if off + |p| > MAXFILE * BSIZE {
        return false;
      }
      assert inodes[inum := din] == inodes;
      WritingStart(SUPER, fs0, own, inum, off, p);
      var tot := 0;
      while tot < |p|
        invariant tot <= |p| && (tot == 0 || (off + tot) % BSIZE == 0 || tot == |p|)
        invariant Good(inum, din) && Writing(SUPER, fs0, View(inum, din), own, inum, off, p, tot)
        invariant Exact(View(inum, din), inum, off + tot)
        invariant freeblock == old(freeblock) + BlocksOf(off + tot) - BlocksOf(off)
      {
        ok, din, tot := AppendRound(inum, din, p, off, tot, fs0);
        if !ok {
          return;
        }
      }
      ghost var fs1 := View(inum, din);
      WritingInv(SUPER, fs0, fs1, own, inum, off, p, |p|);
      din := din.(size := off + |p|);
      inodes := inodes[inum := din];
      Resize(SUPER, fs1, Built(), own, inum, din);
      WritingDone(SUPER, fs0, fs1, Built(), own, inum, off, p);
      AppendTight(fs0, fs1, Built(), own, inum, off, p);
      ok := true;
    }

    /** ialloc: the next inode. */
    method Ialloc(typ: int) returns (inum: nat)
      requires Valid() && freeinode < |inodes| && 0 <= typ <= T_FILE
      modifies this`freeinode, this`inodes
      ensures Valid() && inum == old(freeinode) && freeinode == inum + 1
      ensures inodes == old(inodes)[inum := FreeDinode().(typ := typ, nlink := 1)]
      ensures Contents(Built(), inum) == [] && NoHole(Built(), inum) && Tight(Built(), inum, 0)
      ensures OthersKept(SUPER, old(Built()), Built(), inum)
      ensures TightKept(old(Built()), Built(), inum)
    {
      hide Ref, Used, Owns, Zero, WordAt, ByteAt, Slice;
      inum := freeinode;
      freeinode := freeinode + 1;
      ghost var fs := Built();
      inodes := inodes[inum := FreeDinode().(typ := typ, nlink := 1)];
      Resize(SUPER, fs, Built(), own, inum, inodes[inum]);
      SameContents(SUPER, fs, Built(), inum);
      forall j: nat | j < |inodes| && j != inum
        ensures Tight(fs, j, inodes[j].size) ==> Tight(Built(), j, inodes[j].size) {
        TightSame(fs, Built(), j, inodes[j].size);
      }
      forall k: nat | k < REFS ensures Ref(Built(), inum, k) == 0 {
        FreshRefs(Built(), inum, k);
      }
      EmptyTight(Built(), inum);
    }

    /** The root directory, with its entries "." and "..". */
    method MakeRoot() returns (ok: bool)
      requires Valid() && freeinode == ROOTINO
      modifies this
      ensures old(freeblock) == NMETA ==> ok
      ensures ok ==>
                Valid() && freeinode == 2 && Holds(Built(), [], [])
                  && freeblock == old(freeblock) + BlocksOf(2 * DIRENT)
    {
      hide Ref, Used, Owns, Zero, Contents, NoHole, Tight, FreeDinode, Entry, OthersKept;
      var root := Ialloc(T_DIR);
      ok := Iappend(root, Entry(root, [46]));
      if !ok {
        return;
      }
      ok := Iappend(root, Entry(root, [46, 46]));
      if !ok {
        return;
      }
      assert [] + Entry(root, [46]) == Entry(root, [46]);
    }

    /** The root directory's size is rounded up, and the bitmap is written. */
    method Finish(ghost names: seq<seq<Byte>>, ghost files: seq<seq<Byte>>)
      returns (ok: bool, img: Fs, ghost imgOwn: seq<Owner>)
      requires Valid() && Holds(Built(), names, files) && freeinode == |files| + 2 && |names| == |files|
      modifies this`inodes
      ensures ok && Inv(SUPER, img, imgOwn) && NoneLost(imgOwn) && Made(img, names, files)
      ensures |FreeSet(SUPER, img.bitmap)| == FSSIZE - freeblock && |img.bitmap| == NBITMAP
    {
      hide Ref, Used, Owns, Zero, Slice, NoHole, Tight, Entry, FreeDinode, RefsOf, Needed, Contents, ByteAt, OthersKept,
           AllBytes, NoneLost;
      ghost var fs := Built();
      RootSize(fs, names, files);
      inodes := inodes[ROOTINO := inodes[ROOTINO].(size := RoundUp(inodes[ROOTINO].size))];
      Rounded(fs, Built(), own, ROOTINO);
      var buf;
      ok, buf := Balloc(freeblock);
      img := Fs([buf], inodes, data);
      imgOwn := own;
      SameBits(Built(), img, own);
      BitsLeft(img.bitmap, freeblock);
      MadeFrom(fs, Built(), own, img, names, files);
    }

    /** The contents of a file, read BSIZE bytes at a time. */
    method CopyFile(inum: nat, file: seq<Byte>) returns (ok: bool)
      requires Valid() && ROOTINO < inum < freeinode && Contents(Built(), inum) == [] && NoHole(Built(), inum)
      requires inodes[inum].size == 0
      requires Tight(Built(), inum, inodes[inum].size)
      modifies this`freeblock, this`bm, this`own, this`data, this`inodes
      ensures ok ==> Valid() && Contents(Built(), inum) == file && NoHole(Built(), inum)
      ensures ok ==> inodes[inum].typ == old(inodes[inum].typ) && OthersKept(SUPER, old(Built()), Built(), inum)
      ensures ok ==> Tight(Built(), inum, inodes[inum].size) && TightKept(old(Built()), Built(), inum)
      ensures ok <==> |file| <= MAXFILE * BSIZE && old(freeblock) + BlocksOf(|file|) <= FSSIZE
      ensures ok ==> freeblock == old(freeblock) + BlocksOf(|file|)
    {
      hide Ref, Used, Owns, Zero, Contents, NoHole, Tight, FreeDinode, OthersKept, BlocksOf, Ready;
      NoBlocks();
      ghost var fs0 := Built();
      OthersKeptSelf(SUPER, fs0, inum);
      var done := 0;
      while done < |file|
        invariant done <= |file| && Valid() && inodes[inum].typ == old(inodes[inum].typ)
        invariant Contents(Built(), inum) == file[..done] && NoHole(Built(), inum)
        invariant Tight(Built(), inum, inodes[inum].size) && TightKept(fs0, Built(), inum)
        invariant OthersKept(SUPER, fs0, Built(), inum)
        invariant inodes[inum].size == done <= MAXFILE * BSIZE && freeblock == old(freeblock) + BlocksOf(done) <= FSSIZE
      {
        ghost var fs3 := Built();
        var cc := if |file| - done < BSIZE then |file| - done else BSIZE;
        BlocksMore(done + cc, |file|);
        ok := Iappend(inum, file[done..done + cc]);
        if !ok {
          return;
        }
        OthersKeptTwice(SUPER, fs0, fs3, Built(), inum);
        assert file[..done] + file[done..done + cc] == file[..done + cc];
        done := done + cc;
      }
      assert file[..done] == file;
      ok := true;
    }

    /** One command-line file: a new inode, its directory entry, and its contents. */
    method AddFile(name: seq<Byte>, file: seq<Byte>, ghost names: seq<seq<Byte>>, ghost files: seq<seq<Byte>>)
      returns (ok: bool)
      requires Valid() && Holds(Built(), names, files) && freeinode == |files| + 2 && |files| == |names| < NINODES - 2
      modifies this
      ensures ok ==> Valid() && Holds(Built(), names + [name], files + [file]) && freeinode == |files| + 3
      ensures ok <==> |file| <= MAXFILE * BSIZE && old(freeblock) + EntryCost(|files|) + BlocksOf(|file|) <= FSSIZE
      ensures ok ==> freeblock == old(freeblock) + EntryCost(|files|) + BlocksOf(|file|)
    {
      hide Ref, Used, Owns, Zero, Contents, NoHole, Tight, FreeDinode, Entry, BlocksOf, Ready;
      RootSize(Built(), names, files);
      ghost var fs0 := Built();
      var inum := Ialloc(T_FILE);
      ghost var fs1 := Built();
      HoldsKept(fs0, fs1, inum, names, files);
      assert Tight(fs1, ROOTINO, fs1.inodes[ROOTINO].size);
      ok := Iappend(ROOTINO, Entry(inum, Strip(name)));
      if !ok {
        return;
      }
      ghost var fs2 := Built();
      HoldsEntry(fs1, fs2, name, names, files);
      ok := CopyFile(inum, file);
      if !ok {
        return;
      }
      HoldsKept(fs2, Built(), inum, names + [name], files);
      HoldsFile(Built(), file, names + [name], files);
    }
  }

  lemma ExactPrice(fs: Fs, i: nat, pos: nat)
    requires i < |fs.inodes| && pos / BSIZE < MAXFILE
    requires |fs.inodes[i].addrs| == NDIRECT + 1 && fs.inodes[i].addrs[NDIRECT] < |fs.data| && Exact(fs, i, pos)
    ensures Price(fs, i, pos / BSIZE) == (if pos % BSIZE != 0 then 0 else 1)
                                         + (if pos / BSIZE >= NDIRECT && pos <= NDIRECT * BSIZE then 1 else 0)
  {
    hide Ref;
  }

  lemma ExactNext(fs1: Fs, fs2: Fs, i: nat, pos: nat, m: nat)
    requires Wf(SUPER, fs1) && Wf(SUPER, fs2) && i < |fs1.inodes| == |fs2.inodes| && 0 < m && pos % BSIZE + m <= BSIZE
    requires pos / BSIZE < MAXFILE
    requires Exact(fs1, i, pos) && Ref(fs2, i, SlotOf(pos / BSIZE)) != 0
    requires forall k: nat | k < REFS && k != SlotOf(pos / BSIZE) && k != NDIRECT :: Ref(fs2, i, k) == Ref(fs1, i, k)
    requires fs2.inodes[i].addrs[NDIRECT] != 0 <==> pos / BSIZE >= NDIRECT || fs1.inodes[i].addrs[NDIRECT] != 0
    ensures Exact(fs2, i, pos + m)
  {
    hide Ref;
    forall bn: nat | bn < MAXFILE ensures Mapped(fs2, i, bn) == (bn * BSIZE < pos + m) {
      assert bn != pos / BSIZE ==> Mapped(fs2, i, bn) == Mapped(fs1, i, bn);
    }
  }

  /** The files after an append: file i with p at its end, and the others. */
  lemma AppendTight(fs0: Fs, fs1: Fs, fs2: Fs, own: seq<Owner>, i: nat, off: nat, p: seq<Byte>)
    requires Writing(SUPER, fs0, fs1, own, i, off, p, |p|) && Tight(fs0, i, off) && Exact(fs1, i, off + |p|)
    requires Inv(SUPER, fs2, own) && fs2 == Fs(fs1.bitmap, fs1.inodes[i := fs1.inodes[i].(size := off + |p|)], fs1.data)
    ensures Tight(fs2, i, off + |p|) && TightKept(fs0, fs2, i)
  {
    Resize(SUPER, fs1, fs2, own, i, fs2.inodes[i]);
    hide Ref, Used, Owns, ByteAt;
    assert p[..|p|] == p;
    assert Ref(fs1, i, NDIRECT) == Ref(fs2, i, NDIRECT);
    forall bn: nat | bn < MAXFILE ensures Mapped(fs2, i, bn) == Mapped(fs1, i, bn) {}
    forall pos: nat | off + |p| <= pos < MAXFILE * BSIZE ensures ByteAt(fs2, i, pos) == 0 {
      assert ByteAt(fs1, i, pos) == ByteAt(fs0, i, pos);
    }
    forall j: nat | j < |fs0.inodes| && j != i
      ensures Tight(fs0, j, fs0.inodes[j].size) ==> Tight(fs2, j, fs2.inodes[j].size) {
      forall m: nat | m < REFS ensures Ref(fs2, j, m) == Ref(fs0, j, m) {}
      forall pos: nat | pos < MAXFILE * BSIZE ensures ByteAt(fs2, j, pos) == ByteAt(fs0, j, pos) {
        assert ByteAt(fs1, j, pos) == ByteAt(fs0, j, pos);
      }
      TightSame(fs0, fs2, j, fs0.inodes[j].size);
    }
  }

  lemma TightSame(fs1: Fs, fs2: Fs, j: nat, size: nat)
    requires Wf(SUPER, fs1) && Wf(SUPER, fs2) && j < |fs1.inodes| == |fs2.inodes|
    requires fs1.inodes[j].addrs == fs2.inodes[j].addrs
    requires forall m: nat | m < REFS :: Ref(fs2, j, m) == Ref(fs1, j, m)
    requires forall pos: nat | pos < MAXFILE * BSIZE :: ByteAt(fs2, j, pos) == ByteAt(fs1, j, pos)
    ensures Tight(fs1, j, size) <==> Tight(fs2, j, size)
  {
    hide Ref, ByteAt;
    forall bn: nat | bn < MAXFILE ensures Mapped(fs2, j, bn) == Mapped(fs1, j, bn) {}
  }

  lemma EmptyTight(fs: Fs, i: nat)
    requires Wf(SUPER, fs) && i < |fs.inodes| && fs.inodes[i].addrs == Zeros(NDIRECT + 1)
    requires forall k: nat | k < REFS :: Ref(fs, i, k) == 0
    ensures Tight(fs, i, 0)
  {
    hide Ref;
  }

  /** How many blocks must be handed out for file block bn. */
  ghost function Price(fs: Fs, i: nat, bn: nat): nat
    requires i < |fs.inodes| && bn < MAXFILE
    requires |fs.inodes[i].addrs| == NDIRECT + 1 && fs.inodes[i].addrs[NDIRECT] < |fs.data|
  {
    (if Mapped(fs, i, bn) then 0 else 1) + (if bn >= NDIRECT && fs.inodes[i].addrs[NDIRECT] == 0 then 1 else 0)
  }

  lemma PriceIs(fs: Fs, i: nat, bn: nat)
    requires i < |fs.inodes| && bn < MAXFILE
    requires |fs.inodes[i].addrs| == NDIRECT + 1 && fs.inodes[i].addrs[NDIRECT] < |fs.data|
    ensures bn < NDIRECT ==> Price(fs, i, bn) == if fs.inodes[i].addrs[bn] == 0 then 1 else 0
    ensures bn >= NDIRECT && fs.inodes[i].addrs[NDIRECT] == 0 ==> Price(fs, i, bn) == 2 && Ref(fs, i, SlotOf(bn)) == 0
    ensures bn >= NDIRECT && fs.inodes[i].addrs[NDIRECT] != 0 ==>
              Price(fs, i, bn) == if Ref(fs, i, SlotOf(bn)) == 0 then 1 else 0
  {
  }

  /** A block that is referred to lies below the blocks still to be handed out. */
  lemma IndirectUsed(fs: Fs, own: seq<Owner>, i: nat, used: nat)
    requires Ready(fs, own, used) && i < |fs.inodes|
    ensures forall k: nat | k < REFS :: Ref(fs, i, k) != 0 ==> Ref(fs, i, k) < used
  {
    hide Ref, Used;
  }

  lemma EmptyFile(fs: Fs, i: nat)
    requires i < |fs.inodes| && fs.inodes[i] == FreeDinode() && 0 < |fs.data|
    ensures Contents(fs, i) == [] && NoHole(fs, i) && RefsOf(fs, i) == Needed(0, 0)
  {
    forall k: nat | k < REFS ensures Ref(fs, i, k) == 0 {
      FreshRefs(fs, i, k);
    }
  }

  lemma FreshRefs(fs: Fs, i: nat, k: nat)
    requires i < |fs.inodes| && fs.inodes[i].addrs == Zeros(NDIRECT + 1) && 0 < |fs.data| && k < REFS
    ensures Ref(fs, i, k) == 0
  {
  }

  /** The blocks that the directory entry for one more than n files takes. */
  function EntryCost(n: nat): int { BlocksOf(DIRENT * (n + 3)) - BlocksOf(DIRENT * (n + 2)) }

  /** The blocks of the whole image: metadata, root directory, and files. */
  function Total(files: seq<seq<Byte>>): nat {
    NMETA + BlocksOf(DIRENT * (|files| + 2)) + FileBlocks(files)
  }

  function FileBlocks(files: seq<seq<Byte>>): nat {
    if |files| == 0 then 0 else FileBlocks(files[..|files| - 1]) + BlocksOf(|files[|files| - 1]|)
  }

  /** The files are not too large, each of them and all together. */
  predicate Fit(files: seq<seq<Byte>>) {
    (forall i | 0 <= i < |files| :: |files[i]| <= MAXFILE * BSIZE) && Total(files) <= FSSIZE
  }

  lemma {:induction false} TotalMore(files: seq<seq<Byte>>, n: nat)
    requires n <= |files|
    ensures FileBlocks(files[..n]) <= FileBlocks(files) && Total(files[..n]) <= Total(files)
    decreases |files| - n
  {
    if n < |files| {
      TotalMore(files, n + 1);
      assert files[..n + 1][..n] == files[..n];
      BlocksMore(DIRENT * (n + 2), DIRENT * (n + 3));
    } else {
      assert files[..n] == files;
    }
  }

  lemma TotalNone()
    ensures Total([]) == NMETA + BlocksOf(2 * DIRENT) <= FSSIZE
  {
  }

  lemma TotalNext(files: seq<seq<Byte>>, n: nat)
    requires n < |files|
    ensures Total(files[..n + 1]) == Total(files[..n]) + EntryCost(n) + BlocksOf(|files[n]|)
    ensures EntryCost(n) >= 0
  {
    assert files[..n + 1][..n] == files[..n];
    BlocksMore(DIRENT * (n + 2), DIRENT * (n + 3));
  }

  // ---- the whole image ----------------------------------------------------------------------------

  /** The size mkfs gives the root directory in the end. */
  function RoundUp(size: nat): nat { (size / BSIZE + 1) * BSIZE }

  /** Rounding up the size of a tight file without holes leaves its bytes in place, and makes a hole exactly when
      the size was a multiple of BSIZE. */
  lemma Rounded(fs1: Fs, fs2: Fs, own: seq<Owner>, i: nat)
    requires Inv(SUPER, fs1, own) && i < |fs1.inodes| && RoundUp(fs1.inodes[i].size) <= MAXFILE * BSIZE
    requires fs2 == Fs(fs1.bitmap, fs1.inodes[i := fs1.inodes[i].(size := RoundUp(fs1.inodes[i].size))], fs1.data)
    requires NoHole(fs1, i) && Tight(fs1, i, fs1.inodes[i].size)
    ensures Inv(SUPER, fs2, own) && OthersKept(SUPER, fs1, fs2, i) && TightKept(fs1, fs2, i)
    ensures Contents(fs2, i) == Contents(fs1, i) + Zeros(RoundUp(fs1.inodes[i].size) - fs1.inodes[i].size)
    ensures NoHole(fs2, i) <==> fs1.inodes[i].size % BSIZE != 0
    ensures Tight(fs2, i, fs1.inodes[i].size)
  {
    hide Ref, Used, Owns, ByteAt, Slice;
    Resize(SUPER, fs1, fs2, own, i, fs2.inodes[i]);
    SameContents(SUPER, fs1, fs2, i);
    forall j: nat, size: nat | j < |fs1.inodes| ensures Tight(fs1, j, size) <==> Tight(fs2, j, size) {
      TightSame(fs1, fs2, j, size);
    }
    var bn := fs1.inodes[i].size / BSIZE;
    assert Mapped(fs2, i, bn) == Mapped(fs1, i, bn);
    if fs1.inodes[i].size % BSIZE != 0 {
      forall b: nat | b * BSIZE < fs2.inodes[i].size ensures Mapped(fs2, i, b) {
        assert Mapped(fs1, i, b);
      }
    }
  }

  /** A file that holds just these bytes, in just the blocks they take, all of it on the disk. */
  function Stored(typ: int, size: nat, bytes: seq<Byte>): File
    requires |bytes| <= MAXFILE * BSIZE
  {
    var refs := Needed(0, |bytes|);
    File(typ, size, bytes + Zeros(MAXFILE * BSIZE - |bytes|), refs, AddrsOf(refs))
  }

  /** What mkfs makes of inode i: the root directory, whose size it rounds up, a file, or nothing. */
  function Start(names: seq<seq<Byte>>, files: seq<seq<Byte>>, i: nat): File
    requires |names| == |files| <= NINODES - 2 && forall j | 0 <= j < |files| :: |files[j]| <= MAXFILE * BSIZE
  {
    if i == ROOTINO then Stored(T_DIR, RoundUp(|Dir(names)|), Dir(names))
    else if 2 <= i < |files| + 2 then Stored(T_FILE, |files[i - 2]|, files[i - 2])
    else Stored(0, 0, [])
  }

  ghost predicate Made(img: Fs, names: seq<seq<Byte>>, files: seq<seq<Byte>>) {
    && Wf(SUPER, img) && |img.inodes| == NINODEBLOCKS * 8 && |names| == |files| <= NINODES - 2 && AllSimple(img.inodes)
    && (forall j | 0 <= j < |files| :: |files[j]| <= MAXFILE * BSIZE)
    && forall i: nat | i < |img.inodes| :: FileAt(img, i, img.inodes[i]) == Start(names, files, i)
  }

  lemma ExactRefs(fs: Fs, i: nat, size: nat)
    requires Wf(SUPER, fs) && i < |fs.inodes| && Tight(fs, i, size) && size <= MAXFILE * BSIZE
    ensures RefsOf(fs, i) == Needed(0, size)
  {
    hide WordAt;
    forall k: nat | k < REFS ensures Ref(fs, i, k) != 0 <==> Needs(k, 0, size) {
      if k != NDIRECT {
        var bn := if k < NDIRECT then k else k - 1;
        assert Mapped(fs, i, bn) == (bn * BSIZE < size);
      }
    }
  }

  lemma {:induction false} RangeSize(lo: nat, hi: nat, s: set<nat>)
    requires lo <= hi && forall b: nat :: b in s <==> lo <= b < hi
    ensures |s| == hi - lo
    decreases hi - lo
  {
    if lo == hi {
      assert s == {};
    } else {
      RangeSize(lo + 1, hi, s - {lo});
    }
  }

  lemma BitsLeft(bm: seq<Block>, used: nat)
    requires used <= FSSIZE <= |bm| * BPB && forall b: nat | b < FSSIZE :: Used(bm, b) == (b < used)
    ensures |FreeSet(SUPER, bm)| == FSSIZE - used
  {
    hide Used;
    RangeSize(used, FSSIZE, FreeSet(SUPER, bm));
  }

  /** A file of these contents, with nothing beyond `size` of its bytes, is the stored one. */
  lemma StoredIs(fs: Fs, own: seq<Owner>, i: nat, bytes: seq<Byte>)
    requires Inv(SUPER, fs, own) && i < |fs.inodes| && |bytes| <= fs.inodes[i].size && Tight(fs, i, |bytes|)
    requires Contents(fs, i)[..|bytes|] == bytes
    ensures AllBytes(fs, i) == bytes + Zeros(MAXFILE * BSIZE - |bytes|)
    ensures RefsOf(fs, i) == Needed(0, |bytes|) && SavedOf(fs.inodes[i]) == AddrsOf(Needed(0, |bytes|))
  {
    hide Ref, Used, Owns, Zeros, ByteAt, Exact;
    ContentsFirst(SUPER, fs, own, i);
    ExactRefs(fs, i, |bytes|);
    SavedAll(fs, i);
    hide Contents, RefsOf, SavedOf, Needed, AddrsOf;
    var all, made := AllBytes(fs, i), bytes + Zeros(MAXFILE * BSIZE - |bytes|);
    forall p: nat | p < MAXFILE * BSIZE ensures all[p] == made[p] {
      if p < |bytes| {
        assert bytes[p] == Contents(fs, i)[p] == all[p];
      } else {
        assert ByteAt(fs, i, 0 + p) == 0;
      }
    }
  }

  lemma MadeFrom(fs: Fs, fs1: Fs, own: seq<Owner>, img: Fs, names: seq<seq<Byte>>, files: seq<seq<Byte>>)
    requires Holds(fs, names, files) && |names| == |files| && Inv(SUPER, fs1, own) && Wf(SUPER, img)
    requires fs.inodes[ROOTINO].size == |Dir(names)| && RoundUp(|Dir(names)|) <= MAXFILE * BSIZE
    requires fs1 == Fs(fs.bitmap, fs.inodes[ROOTINO := fs.inodes[ROOTINO].(size := RoundUp(|Dir(names)|))], fs.data)
    requires OthersKept(SUPER, fs, fs1, ROOTINO) && TightKept(fs, fs1, ROOTINO) && img.inodes == fs1.inodes
    requires Contents(fs1, ROOTINO) == Dir(names) + Zeros(RoundUp(|Dir(names)|) - |Dir(names)|)
    requires Tight(fs1, ROOTINO, |Dir(names)|)
    requires forall j: nat | j < |fs1.inodes| ::
               AllBytes(img, j) == AllBytes(fs1, j) && RefsOf(img, j) == RefsOf(fs1, j)
    requires forall i: nat | i == 0 || |files| + 2 <= i < |fs.inodes| :: fs.inodes[i] == FreeDinode()
    requires AllSimple(img.inodes)
    ensures Made(img, names, files)
  {
    hide Ref, NoHole, Tight, Needed, RefsOf, Zeros, Dir, AllBytes, Owns, SavedOf, AddrsOf;
    FilesSmall(fs, names, files);
    StoredIs(fs1, own, ROOTINO, Dir(names));
    forall i: nat | i < |img.inodes| ensures FileAt(img, i, img.inodes[i]) == Start(names, files, i) {
      if 2 <= i < |files| + 2 {
        assert Contents(fs1, i) == Contents(fs, i);
        assert Contents(fs, i) == files[i - 2];
        assert files[i - 2][..|files[i - 2]|] == files[i - 2];
        StoredIs(fs1, own, i, files[i - 2]);
      } else if i != ROOTINO {
        EmptyFile(fs1, i);
        EmptyIsTight(fs1, i);
        StoredIs(fs1, own, i, []);
      }
    }
  }

  lemma FilesSmall(fs: Fs, names: seq<seq<Byte>>, files: seq<seq<Byte>>)
    requires Holds(fs, names, files)
    ensures forall j | 0 <= j < |files| :: |files[j]| <= MAXFILE * BSIZE
  {
    hide Tight, NoHole, Dir, Contents;
    forall j | 0 <= j < |files| ensures |files[j]| <= MAXFILE * BSIZE {
      assert Contents(fs, j + 2) == files[(j + 2) - 2];
    }
  }

  lemma EmptyIsTight(fs: Fs, i: nat)
    requires Wf(SUPER, fs) && i < |fs.inodes| && fs.inodes[i] == FreeDinode()
    ensures Tight(fs, i, 0)
  {
    hide Ref;
    forall k: nat | k < REFS ensures Ref(fs, i, k) == 0 {
      FreshRefs(fs, i, k);
    }
    EmptyTight(fs, i);
  }

  /** mkfs: the layout, the root directory and the files.  It stops when a file is too large, and this model stops
      where the blocks of the image run out. */
  method Build(names: seq<seq<Byte>>, files: seq<seq<Byte>>) returns (ok: bool, img: Fs, ghost own: seq<Owner>)
    requires |names| == |files| <= NINODES - 2
    ensures ok <==> Fit(files)
    ensures ok ==> Inv(SUPER, img, own) && NoneLost(own) && Made(img, names, files)
    ensures ok ==> |FreeSet(SUPER, img.bitmap)| == FSSIZE - Total(files) && |img.bitmap| == NBITMAP
  {
    hide Ref, Used, Owns, Zero, Contents, NoHole, Tight, Entry, FreeDinode, OthersKept, Ready, BlocksOf, Total,
         EntryCost, Made, FreeSet, Holds, Inv, NoneLost;
    var image := new Image();
    img := Fs([], [], []);
    own := [];
    ok := image.MakeRoot();
    if !ok {
      return;
    }
    var i := 0;
    TotalNone();
    assert files[..0] == [];
    while i < |names|
      invariant i <= |names| && image.Valid() && image.freeinode == i + 2
      invariant Holds(image.Built(), names[..i], files[..i])
      invariant image.freeblock == Total(files[..i]) <= FSSIZE && forall k | 0 <= k < i :: |files[k]| <= MAXFILE * BSIZE
    {
      TotalNext(files, i);
      TotalMore(files, i + 1);
      ok := image.AddFile(names[i], files[i], names[..i], files[..i]);
      if !ok {
        return;
      }
      assert names[..i] + [names[i]] == names[..i + 1] && files[..i] + [files[i]] == files[..i + 1];
      i := i + 1;
    }
    assert names[..i] == names && files[..i] == files;
    ok, img, own := image.Finish(names, files);
  }
}
