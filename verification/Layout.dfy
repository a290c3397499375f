/** Where the file system is on the disk: the log, the inodes, packed eight to a block, the bitmap, and the data blocks
    (src/fs.h and iupdate of src/fs.c). */
module DiskLayout {
  import opened Blocks
  import opened Bitmap
  import opened FsModel
  import opened FileOps
  import opened LogPlan

  // ---- an inode in its block ----------------------------------------------------------------------

  const INODE_WORDS := 16

  /** A 16-bit number with sign. */
  function Short(u: nat): int {
    if u < 0x8000 then u else u - 0x1_0000
  }

  function Unsigned(x: int): (u: nat)
    requires -0x8000 <= x < 0x8000
    ensures u < 0x1_0000 && Short(u) == x
  {
    if x >= 0 then x else x + 0x1_0000
  }

  predicate IsShort(x: int) { -0x8000 <= x < 0x8000 }

  /** The fields of the inode have room in a struct dinode. */
  predicate InodeFits(d: Dinode) {
    && IsShort(d.typ) && IsShort(d.major) && IsShort(d.minor) && IsShort(d.nlink)
    && d.size < WORD_LIMIT && |d.addrs| == NDIRECT + 1 && forall k | 0 <= k <= NDIRECT :: d.addrs[k] < WORD_LIMIT
  }

  /** The struct dinode as words. */
  function Words(d: Dinode): (r: seq<nat>)
    requires InodeFits(d)
    ensures |r| == INODE_WORDS && forall k | 0 <= k < INODE_WORDS :: r[k] < WORD_LIMIT
  {
    [Unsigned(d.typ) + 0x1_0000 * Unsigned(d.major), Unsigned(d.minor) + 0x1_0000 * Unsigned(d.nlink), d.size] + d.addrs
  }

  function WordsAt(b: Block, at: nat, n: nat): (r: seq<nat>)
    requires at + n <= WORDS
    ensures |r| == n && forall k | 0 <= k < n :: r[k] == WordAt(b, at + k)
  {
    if n == 0 then [] else WordsAt(b, at, n - 1) + [WordAt(b, at + n - 1)]
  }

  /** The inode that sixteen words are. */
  function InodeOf(ws: seq<nat>): Dinode
    requires |ws| == INODE_WORDS
  {
    Dinode(Short(ws[0] % 0x1_0000), Short(ws[0] / 0x1_0000), Short(ws[1] % 0x1_0000), Short(ws[1] / 0x1_0000),
           ws[2], ws[3..])
  }

  lemma WordsBack(d: Dinode)
    requires InodeFits(d)
    ensures InodeOf(Words(d)) == d
  {
  }

  /** The inode in slot s of the block. */
  function InodeAt(b: Block, s: nat): Dinode
    requires s < IPB
  {
    InodeOf(WordsAt(b, INODE_WORDS * s, INODE_WORDS))
  }

  function PutWords(b: Block, at: nat, ws: seq<nat>): (r: Block)
    requires at + |ws| <= WORDS && forall k | 0 <= k < |ws| :: ws[k] < WORD_LIMIT
    ensures forall j: nat | j < WORDS :: WordAt(r, j) == if at <= j < at + |ws| then ws[j - at] else WordAt(b, j)
  {
    if |ws| == 0 then b else PutWord(PutWords(b, at, ws[..|ws| - 1]), at + |ws| - 1, ws[|ws| - 1])
  }

  /** iupdate's stores. */
  function PutInode(b: Block, s: nat, d: Dinode): Block
    requires s < IPB && InodeFits(d)
  {
    PutWords(b, INODE_WORDS * s, Words(d))
  }

  /** They make the inode read back, and leave the others of the block as they were. */
  lemma InodeStored(b: Block, s: nat, d: Dinode, t: nat)
    requires s < IPB && t < IPB && InodeFits(d)
    ensures InodeAt(PutInode(b, s, d), t) == if t == s then d else InodeAt(b, t)
  {
    hide WordAt, InodeOf, Words;
    WordsBack(d);
    var r, at := PutInode(b, s, d), INODE_WORDS * t;
    var stored := WordsAt(r, at, INODE_WORDS);
    if t == s {
      assert stored == Words(d);
    } else {
      assert stored == WordsAt(b, at, INODE_WORDS);
    }
  }

  /** Where its fields are: type, major, minor and nlink are the first four half-words, then come the size and the
      addresses. */
  lemma InodeFields(b: Block, s: nat, d: Dinode)
    requires s < IPB && InodeFits(d)
    ensures var r, at := PutInode(b, s, d), 16 * s;
            && Short(WordAt(r, at) % 0x1_0000) == d.typ && Short(WordAt(r, at) / 0x1_0000) == d.major
            && Short(WordAt(r, at + 1) % 0x1_0000) == d.minor && Short(WordAt(r, at + 1) / 0x1_0000) == d.nlink
            && WordAt(r, at + 2) == d.size && forall k: nat | k <= NDIRECT :: WordAt(r, at + 3 + k) == d.addrs[k]
  {
    hide WordAt;
    var r, at, ws := PutInode(b, s, d), 16 * s, Words(d);
    forall k: nat | k < INODE_WORDS ensures WordAt(r, at + k) == ws[k] {}
    assert WordAt(r, at + 0) == ws[0] && WordAt(r, at + 1) == ws[1] && WordAt(r, at + 2) == ws[2];
    forall k: nat | k <= NDIRECT ensures WordAt(r, at + 3 + k) == d.addrs[k] {
      assert WordAt(r, at + (3 + k)) == ws[3 + k];
    }
    hide PutInode, InodeFits;
  }

  /** The first n slots of the block, from inode `first` on. */
  function PutInodes(b: Block, inodes: seq<Dinode>, first: nat, n: nat): Block
    requires n <= IPB && forall i | 0 <= i < |inodes| :: InodeFits(inodes[i])
  {
    if n == 0 then b
    else
      var c := PutInodes(b, inodes, first, n - 1);
      if first + n - 1 < |inodes| then PutInode(c, n - 1, inodes[first + n - 1]) else c
  }

  lemma {:induction false} InodesStored(b: Block, inodes: seq<Dinode>, first: nat, n: nat, s: nat)
    requires s < n <= IPB && (forall i | 0 <= i < |inodes| :: InodeFits(inodes[i])) && first + s < |inodes|
    ensures InodeAt(PutInodes(b, inodes, first, n), s) == inodes[first + s]
  {
    hide InodeAt, PutInode, InodeFits;
    var c := PutInodes(b, inodes, first, n - 1);
    if first + n - 1 < |inodes| {
      InodeStored(c, n - 1, inodes[first + n - 1], s);
    }
    if s < n - 1 {
      InodesStored(b, inodes, first, n - 1, s);
    }
  }

  // ---- the whole disk -----------------------------------------------------------------------------

  /** The areas follow one another: the log, the inodes, the bitmap, the data. */
  ghost predicate Areas(sb: Super, g: Geometry, fs: Fs) {
    && g.total == sb.size == |fs.data| && g.start + g.size <= sb.inodestart <= sb.bmapstart
    && |fs.inodes| <= (sb.bmapstart - sb.inodestart) * IPB && sb.bmapstart + |fs.bitmap| <= sb.nmeta <= sb.size
  }

  /** The blocks of d hold the file system. */
  ghost predicate Layout(sb: Super, g: Geometry, d: Disk, fs: Fs) {
    && Areas(sb, g, fs) && |d| == sb.size
    && (forall j: nat | j < |fs.bitmap| :: d[sb.bmapstart + j] == fs.bitmap[j])
    && (forall i: nat | i < |fs.inodes| :: InodeAt(d[sb.inodestart + i / IPB], i % IPB) == fs.inodes[i])
    && (forall b: nat | sb.nmeta <= b < sb.size :: d[b] == fs.data[b])
  }

  /** The block b as it has to be for the file system. */
  function NewBlock(sb: Super, was: Block, fs: Fs, b: nat): Block
    requires b < |fs.data| && forall i | 0 <= i < |fs.inodes| :: InodeFits(fs.inodes[i])
  {
    if sb.bmapstart <= b < sb.bmapstart + |fs.bitmap| then fs.bitmap[b - sb.bmapstart]
    else if sb.inodestart <= b < sb.bmapstart then PutInodes(was, fs.inodes, (b - sb.inodestart) * IPB, IPB)
    else if sb.nmeta <= b then fs.data[b]
    else was
  }

  lemma BlockIs(sb: Super, g: Geometry, was: Block, fs: Fs, b: nat)
    requires Areas(sb, g, fs) && b < |fs.data| && forall i | 0 <= i < |fs.inodes| :: InodeFits(fs.inodes[i])
    ensures sb.bmapstart <= b < sb.bmapstart + |fs.bitmap| ==> NewBlock(sb, was, fs, b) == fs.bitmap[b - sb.bmapstart]
    ensures sb.nmeta <= b ==> NewBlock(sb, was, fs, b) == fs.data[b]
    ensures sb.inodestart <= b < sb.bmapstart ==>
              NewBlock(sb, was, fs, b) == PutInodes(was, fs.inodes, (b - sb.inodestart) * IPB, IPB)
    ensures b < sb.inodestart ==> NewBlock(sb, was, fs, b) == was
  {
    hide PutInodes, InodeFits;
  }

  /** The first n blocks of the disk with the logged ones brought up to date. */
  function Relaid(sb: Super, d: Disk, fs: Fs, logged: set<nat>, n: nat): (r: Disk)
    requires n <= |d| == |fs.data| && forall i | 0 <= i < |fs.inodes| :: InodeFits(fs.inodes[i])
    ensures |r| == n && forall b: nat | b < n :: r[b] == if b in logged then NewBlock(sb, d[b], fs, b) else d[b]
  {
    if n == 0 then []
    else Relaid(sb, d, fs, logged, n - 1) + [if n - 1 in logged then NewBlock(sb, d[n - 1], fs, n - 1) else d[n - 1]]
  }

  /** The operation has changed no inode but in its size and addresses. */
  ghost predicate KindsKept(fs1: Fs, fs2: Fs) {
    && |fs1.inodes| == |fs2.inodes|
    && forall i: nat | i < |fs1.inodes| ::
         fs2.inodes[i] == fs1.inodes[i].(size := fs2.inodes[i].size, addrs := fs2.inodes[i].addrs)
  }

  lemma KindsFit(sb: Super, g: Geometry, d: Disk, fs1: Fs, fs2: Fs)
    requires Layout(sb, g, d, fs1) && KindsKept(fs1, fs2) && Wf(sb, fs2)
    ensures forall i | 0 <= i < |fs2.inodes| :: InodeFits(fs2.inodes[i])
  {
    hide WordAt, WordsAt;
    forall i: nat | i < |fs2.inodes| ensures InodeFits(fs2.inodes[i]) {
      assert InodeAt(d[sb.inodestart + i / IPB], i % IPB) == fs1.inodes[i];
    }
  }

  /** An operation that logs every block it changes can be made on the disk by writing those blocks. */
  lemma LoggedLayout(sb: Super, g: Geometry, d: Disk, fs1: Fs, fs2: Fs, logged: set<nat>)
    requires Layout(sb, g, d, fs1) && Logs(sb, fs1, fs2, logged) && KindsKept(fs1, fs2) && Wf(sb, fs2)
    ensures forall i | 0 <= i < |fs2.inodes| :: InodeFits(fs2.inodes[i])
    ensures Layout(sb, g, Relaid(sb, d, fs2, logged, |d|), fs2)
  {
    hide InodeAt, PutInodes, InodeFits, NewBlock;
    KindsFit(sb, g, d, fs1, fs2);
    var r := Relaid(sb, d, fs2, logged, |d|);
    forall b: nat | b < |d| && b in logged
      ensures sb.bmapstart <= b < sb.bmapstart + |fs2.bitmap| ==> r[b] == fs2.bitmap[b - sb.bmapstart]
      ensures sb.nmeta <= b ==> r[b] == fs2.data[b]
    {
      BlockIs(sb, g, d[b], fs2, b);
    }
    forall i: nat | i < |fs2.inodes| ensures InodeAt(r[sb.inodestart + i / IPB], i % IPB) == fs2.inodes[i] {
      InodeRelaid(sb, g, d, fs1, fs2, logged, i);
    }
  }

  /** And a file system can be laid out where there was none. */
  lemma FirstLayout(sb: Super, g: Geometry, d: Disk, fs: Fs, all: set<nat>)
    requires Areas(sb, g, fs) && |d| == sb.size && (forall i | 0 <= i < |fs.inodes| :: InodeFits(fs.inodes[i]))
    requires forall b: nat | sb.inodestart <= b < sb.size :: b in all
    ensures Layout(sb, g, Relaid(sb, d, fs, all, |d|), fs)
  {
    hide InodeAt, PutInodes, InodeFits, NewBlock;
    var r := Relaid(sb, d, fs, all, |d|);
    forall b: nat | b < |d| && b in all
      ensures sb.bmapstart <= b < sb.bmapstart + |fs.bitmap| ==> r[b] == fs.bitmap[b - sb.bmapstart]
      ensures sb.nmeta <= b ==> r[b] == fs.data[b]
    {
      BlockIs(sb, g, d[b], fs, b);
    }
    forall i: nat | i < |fs.inodes| ensures InodeAt(r[sb.inodestart + i / IPB], i % IPB) == fs.inodes[i] {
      var b := sb.inodestart + i / IPB;
      BlockIs(sb, g, d[b], fs, b);
      InodesStored(d[b], fs.inodes, (b - sb.inodestart) * IPB, IPB, i % IPB);
    }
  }

  lemma InodeRelaid(sb: Super, g: Geometry, d: Disk, fs1: Fs, fs2: Fs, logged: set<nat>, i: nat)
    requires Layout(sb, g, d, fs1) && Logs(sb, fs1, fs2, logged) && Areas(sb, g, fs2) && i < |fs2.inodes|
    requires forall i | 0 <= i < |fs2.inodes| :: InodeFits(fs2.inodes[i])
    ensures InodeAt(Relaid(sb, d, fs2, logged, |d|)[sb.inodestart + i / IPB], i % IPB) == fs2.inodes[i]
  {
    hide InodeAt, PutInodes, InodeFits, NewBlock;
    var b := sb.inodestart + i / IPB;
    assert InodeAt(d[b], i % IPB) == fs1.inodes[i];
    if b in logged {
      BlockIs(sb, g, d[b], fs2, b);
      InodesStored(d[b], fs2.inodes, (b - sb.inodestart) * IPB, IPB, i % IPB);
    }
  }
}
