/** fileread and filewrite of src/file.c: a read outside of any transaction, and a write of any length as a series of
    transactions that fit the log. */
module FileWrite {
  import opened Blocks
  import opened Bitmap
  import opened FsModel
  import opened FileOps

  const MAXOPBLOCKS := 10
  const MAXCHUNK := (MAXOPBLOCKS - 1 - 1 - 2) / 2 * 512

  /** No chunk is too large for one operation of the log, even if every block it allocates has its bit in a
      different bitmap block: data and bitmap blocks, the indirect block with its bitmap block, and the inode. */
  lemma ChunkFits(off: nat, n: nat)
    requires n <= MAXCHUNK
    ensures Cost(off, n, true) + 3 <= MAXOPBLOCKS
  {
  }

  /** What a call of filewrite with n bytes at off can write to a file of a given size. */
  predicate Fits(size: nat, off: nat, n: nat) {
    n == 0 || (off <= size && off + n <= MAXFILE * BSIZE)
  }

  /** How many of n bytes are in chunks that can be written, of which the first i have been. */
  function Reach(size: nat, off: nat, n: nat, i: nat): (k: nat)
    requires i <= n
    ensures i <= k <= n
    decreases n - i
  {
    if i == n || !Fits(size, off, i + Chunk(i, n)) then i else Reach(size, off, n, i + Chunk(i, n))
  }

  /** The chunk of src that the loop writes after the first i bytes. */
  function Chunk(i: nat, n: nat): (n1: nat)
    requires i < n
    ensures 0 < n1 <= MAXCHUNK && i + n1 <= n
  {
    if n - i > MAXCHUNK then MAXCHUNK else n - i
  }

  class OpenFile {
    var off: nat
    const readable: bool
    const writable: bool

    constructor (off: nat, readable: bool, writable: bool) {
      this.off := off;
      this.readable := readable;
      this.writable := writable;
    }
  }

  /** The end of fileread: that of readi, or the panic of a log_write outside of any operation. */
  datatype ReadEnd = Read(out: Outcome) | OutsideOp

  /** fileread on an inode that is no device's, while `outstanding` other calls are in an operation.  It begins none of
      its own, so that where it has to allocate the block of a hole, log_write panics if there is none. */
  method Fileread(disk: FsDisk, ip: Inode, f: OpenFile, n: nat, outstanding: nat) returns (end: ReadEnd, dst: seq<Byte>)
    requires disk.Good(ip) && ip.d.typ != T_DEV && f.off < WORD_LIMIT && n < WORD_LIMIT
    modifies disk, ip, f`off
    ensures disk.Good(ip)
    ensures end == OutsideOp <==>
              f.readable && outstanding == 0 && old(disk.InRange(ip, f.off, n))
              && old(disk.Missing(ip, f.off, n)) != {} && old(disk.FreeBlocks()) != {}
    ensures end == Read(OutOfBlocks) <==>
              f.readable && end != OutsideOp && old(disk.InRange(ip, f.off, n))
              && |old(disk.Missing(ip, f.off, n))| > |old(disk.FreeBlocks())|
    ensures end == Read(Ret(-1)) <==> !f.readable || !old(disk.InRange(ip, f.off, n))
    ensures end == Read(Ret(-1)) <==> !f.readable || old(f.off) > old(ip.d.size) || old(f.off) + n >= WORD_LIMIT
    ensures end.Read? && end.out.Ret? && end.out.r >= 0 ==>
              && end.out.r == |dst| <= n && f.off == old(f.off) + |dst| <= old(ip.d.size)
              && (|dst| == n || f.off == old(ip.d.size)) && dst == old(disk.File(ip))[old(f.off)..f.off]
    ensures end.Read? && !(end.out.Ret? && end.out.r >= 0) ==> f.off == old(f.off)
    ensures end.Read? && end.out.Ret? && end.out.r >= 0 && old(disk.InSync(ip)) ==>
              (Owned(disk.sb, disk.OnDisk())
               <==> AddrsReady(old(ip.d), old(f.off), Last(old(ip.d.size), old(f.off), n) - old(f.off)))
  {
    hide Used, Ref, Owns, Contents, Needed, RefsOf, NoHole, Extended;
    if !f.readable {
      return Read(Ret(-1)), [];
    }
    var bm := disk.bitmap;
    var out;
    out, dst := disk.Readi(ip, f.off, n, {});
    assert out.OutOfBlocks? ==> disk.FreeBlocks() == {};
    assert disk.bitmap == bm ==> disk.FreeBlocks() == old(disk.FreeBlocks());
    if outstanding == 0 && disk.bitmap != bm {
      return OutsideOp, dst;
    }
    if out.Ret? && out.r > 0 {
      f.off := f.off + out.r;
    }
    end := Read(out);
  }

  /** c2 is c with the first `done` bytes of src written at off. */
  ghost predicate Wrote(c: seq<Byte>, off: nat, src: seq<Byte>, done: nat, c2: seq<Byte>) {
    && done <= |src|
    && (done == 0 ==> c2 == c)
    && (done > 0 ==> Fits(|c|, off, done) && c2 == Replace(c, off, src[..done]))
  }

  lemma WroteChunk(c: seq<Byte>, off: nat, src: seq<Byte>, i: nat, c1: seq<Byte>)
    requires Wrote(c, off, src, i, c1) && i < |src|
    ensures var n1 := Chunk(i, |src|);
            && (Fits(|c1|, off + i, n1) <==> Fits(|c|, off, i + n1))
            && (Fits(|c|, off, |src|) ==> Fits(|c|, off, i + n1))
            && (Fits(|c1|, off + i, n1) ==> Wrote(c, off, src, i + n1, Replace(c1, off + i, src[i..i + n1])))
  {
  }

  /** One transaction of filewrite. */
  method WriteChunk(disk: FsDisk, ip: Inode, f: OpenFile, chunk: seq<Byte>) returns (out: Outcome)
    requires disk.Good(ip) && disk.Solid(ip) && disk.inodes[ip.inum] == ip.d && ip.d.typ != T_DEV
    requires f.off < WORD_LIMIT && 0 < |chunk| <= MAXCHUNK
    modifies disk, ip, f`off
    ensures disk.Good(ip) && !out.Driver?
    ensures out.OutOfBlocks? ==> forall c: nat | c < disk.sb.size :: Used(disk.bitmap, c)
    ensures out.OutOfBlocks? <==>
              && Fits(|old(disk.File(ip))|, old(f.off), |chunk|)
              && |Needed(old(f.off), |chunk|) - old(disk.Refs(ip))| > |old(disk.FreeBlocks())|
    ensures out.Ret? && out.r >= 0 ==>
              && disk.Refs(ip) == old(disk.Refs(ip)) + Needed(old(f.off), |chunk|)
              && |disk.FreeBlocks()| == |old(disk.FreeBlocks())| - |Needed(old(f.off), |chunk|) - old(disk.Refs(ip))|
    ensures out.Ret? ==> disk.Solid(ip) && disk.inodes[ip.inum] == ip.d && ip.d.typ != T_DEV
    ensures out.Ret? ==> |disk.logged| <= MAXOPBLOCKS && OthersKept(disk.sb, old(disk.View(ip)), disk.View(ip), ip.inum)
    ensures out.Ret? ==>
              if Fits(|old(disk.File(ip))|, old(f.off), |chunk|)
              then out.r == |chunk| && disk.File(ip) == Replace(old(disk.File(ip)), old(f.off), chunk)
                && f.off == old(f.off) + |chunk|
              else out.r == -1 && disk.File(ip) == old(disk.File(ip)) && f.off == old(f.off)
  {
    hide Used, Ref, Owns, Replace, OthersKept, NoHole, Slice, ByteAt, Cost;
    disk.BeginOp();
    OthersKeptSelf(disk.sb, disk.View(ip), ip.inum);
    out := disk.Writei(ip, chunk, f.off, {});
    ChunkFits(old(f.off), |chunk|);
    if out.Ret? && out.r > 0 {
      f.off := f.off + out.r;
    }
  }

  /** filewrite on the inode of a regular file or directory.  `done` is how much of src was written, and ops lists
      how many blocks each transaction logged. */
  method Filewrite(disk: FsDisk, ip: Inode, f: OpenFile, src: seq<Byte>, n: int)
    returns (out: Outcome, ghost done: nat, ghost ops: seq<nat>)
    requires disk.Good(ip) && disk.Solid(ip) && disk.inodes[ip.inum] == ip.d && ip.d.typ != T_DEV
    requires f.off < WORD_LIMIT && (n < 0 || n == |src|)
    modifies disk, ip, f
    ensures disk.Good(ip)
    ensures forall k | 0 <= k < |ops| :: ops[k] <= MAXOPBLOCKS
    ensures out.OutOfBlocks? ==> forall c: nat | c < disk.sb.size :: Used(disk.bitmap, c)
    ensures out.OutOfBlocks? <==>
              && f.writable && n >= 0
              && |Needed(old(f.off), Reach(|old(disk.File(ip))|, old(f.off), n, 0)) - old(disk.Refs(ip))|
                   > |old(disk.FreeBlocks())|
    ensures out.Ret? && f.writable && n >= 0 ==> done == Reach(|old(disk.File(ip))|, old(f.off), n, 0)
    ensures out.Ret? ==> disk.Solid(ip) && disk.inodes[ip.inum] == ip.d
    ensures out.Ret? ==> Wrote(old(disk.File(ip)), old(f.off), src, done, disk.File(ip)) && f.off == old(f.off) + done
    ensures out.Ret? ==> OthersKept(disk.sb, old(disk.View(ip)), disk.View(ip), ip.inum)
    ensures out.Ret? ==> out.r == if f.writable && n >= 0 && Fits(|old(disk.File(ip))|, old(f.off), n) then n else -1
    ensures out.Ret? ==>
              (out.r == -1 <==> !f.writable || n < 0
                                || (n > 0 && (old(f.off) > old(ip.d.size) || old(f.off) + n > MAXFILE * BSIZE)))
    ensures out.Ret? && out.r != -1 ==> done == n
    ensures out.Ret? && f.writable && n >= 0 && out.r == -1 ==>
              done < n && !Fits(|old(disk.File(ip))|, old(f.off), done + Chunk(done, n))
  {
    hide Used, Ref, Owns, Wf, Replace, OthersKept, NoHole, Slice, ByteAt, Cost, Wrote, Contents, Chunk, Needed, RefsOf,
         FreeSet, Spent, Reach;
    done, ops := 0, [];
    ghost var c, fs0, off0 := disk.File(ip), disk.View(ip), f.off;
    ghost var refs0, free0 := disk.Refs(ip), |disk.FreeBlocks()|;
    NothingSpent(off0, refs0, free0);
    Started(disk.sb, fs0, disk.own, ip.inum, c, f.off, src);
    if !f.writable {
      return Ret(-1), 0, [];
    }
    var i := 0;
    while i < n
      invariant n >= 0 ==> i <= n
      invariant n < 0 ==> i == 0
      invariant done == i && f.off == off0 + i < WORD_LIMIT
      invariant disk.Good(ip) && disk.Solid(ip) && disk.inodes[ip.inum] == ip.d && ip.d.typ != T_DEV
      invariant Wrote(c, off0, src, i, disk.File(ip)) && (i == |src| == n ==> Fits(|c|, off0, n))
      invariant n >= 0 ==> Reach(|c|, off0, n, i) == Reach(|c|, off0, n, 0)
      invariant Spent(off0, i, refs0, free0, disk.Refs(ip), |disk.FreeBlocks()|)
      invariant OthersKept(disk.sb, fs0, disk.View(ip), ip.inum)
      invariant forall k | 0 <= k < |ops| :: ops[k] <= MAXOPBLOCKS
    {
      ghost var fs1 := disk.View(ip);
      var n1 := Chunk(i, n);
      WroteChunk(c, off0, src, i, disk.File(ip));
      ReachStep(|c|, off0, n, i);
      SpentAll(off0, i, refs0, free0, disk.Refs(ip), |disk.FreeBlocks()|);
      SpentMore(off0, i, n1, refs0, free0, disk.Refs(ip), |disk.FreeBlocks()|, Reach(|c|, off0, n, i));
      out := WriteChunk(disk, ip, f, src[i..i + n1]);
      if out.OutOfBlocks? {
        return;
      }
      OthersKeptTwice(disk.sb, fs0, fs1, disk.View(ip), ip.inum);
      ops := ops + [|disk.logged|];
      if out.r < 0 {
        return;
      }
      i := i + out.r;
      done := i;
    }
    if n >= 0 {
      ReachStep(|c|, off0, n, i);
    }
    SpentAll(off0, i, refs0, free0, disk.Refs(ip), |disk.FreeBlocks()|);
    out := Ret(if i == n then n else -1);
  }

  /** The first i bytes at off have taken the references they need and a free block for each that was missing. */
  ghost predicate Spent(off: nat, i: nat, refs0: set<nat>, free0: nat, refs: set<nat>, free: nat) {
    refs == refs0 + Needed(off, i) && free == free0 - |Needed(off, i) - refs0|
  }

  lemma NothingSpent(off: nat, refs: set<nat>, free: nat)
    ensures Spent(off, 0, refs, free, refs, free)
  {
    assert Needed(off, 0) == {};
  }

  lemma SpentMore(off: nat, i: nat, n: nat, refs0: set<nat>, free0: nat, refs: set<nat>, free: nat, most: nat)
    requires Spent(off, i, refs0, free0, refs, free)
    ensures |Needed(off + i, n) - refs| <= free ==>
              Spent(off, i + n, refs0, free0, refs + Needed(off + i, n), free - |Needed(off + i, n) - refs|)
    ensures |Needed(off + i, n) - refs| > free && i + n <= most ==> |Needed(off, most) - refs0| > free0
  {
    hide Needed;
    NeededSplit(off, i, i + n);
    CountSplit(Needed(off, i), Needed(off + i, n), refs0);
    assert refs0 + Needed(off, i) + Needed(off + i, n) == refs0 + Needed(off, i + n);
    if i + n <= most {
      NeededSplit(off, i + n, most);
      SubsetSize(Needed(off, i + n) - refs0, Needed(off, most) - refs0);
    }
  }

  lemma SpentAll(off: nat, i: nat, refs0: set<nat>, free0: nat, refs: set<nat>, free: nat)
    requires Spent(off, i, refs0, free0, refs, free)
    ensures |Needed(off, i) - refs0| <= free0
  {
  }

  lemma ReachStep(size: nat, off: nat, n: nat, i: nat)
    requires i <= n
    ensures i == n ==> Reach(size, off, n, i) == i
    ensures i < n && Fits(size, off, i + Chunk(i, n)) ==>
              Reach(size, off, n, i) == Reach(size, off, n, i + Chunk(i, n))
    ensures i < n && !Fits(size, off, i + Chunk(i, n)) ==> Reach(size, off, n, i) == i
  {
    hide Fits;
  }

  lemma Started(sb: Super, fs: Fs, own: seq<Owner>, i: nat, c: seq<Byte>, off: nat, src: seq<Byte>)
    requires Inv(sb, fs, own)
    ensures Wf(sb, fs) && OthersKept(sb, fs, fs, i) && Wrote(c, off, src, 0, c)
  {
  }
}
