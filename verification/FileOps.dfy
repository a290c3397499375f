/** The operations of src/fs.c on a disk and an in-memory inode. */
module FileOps {
  import opened Blocks
  import opened Bitmap
  import opened FsModel

  const IPB := 8              // inodes per block
  const T_DEV := 3
  const NDEV := 10

  /** Every block in which fs1 and fs2 differ has been logged. */
  ghost predicate Logs(sb: Super, fs1: Fs, fs2: Fs, logged: set<nat>) {
    && |fs1.bitmap| == |fs2.bitmap| && |fs1.inodes| == |fs2.inodes| && |fs1.data| == |fs2.data|
    && (forall j: nat | j < |fs1.bitmap| && fs1.bitmap[j] != fs2.bitmap[j] :: sb.bmapstart + j in logged)
    && (forall i: nat | i < |fs1.inodes| && fs1.inodes[i] != fs2.inodes[i] :: sb.inodestart + i / IPB in logged)
    && (forall b: nat | b < |fs1.data| && fs1.data[b] != fs2.data[b] :: b in logged)
  }

  lemma LogsSelf(sb: Super, fs: Fs, logged: set<nat>)
    ensures Logs(sb, fs, fs, logged)
  {
  }

  lemma LogsTwice(sb: Super, fs1: Fs, fs2: Fs, fs3: Fs, logged2: set<nat>, logged3: set<nat>)
    requires Logs(sb, fs1, fs2, logged2) && Logs(sb, fs2, fs3, logged3) && logged2 <= logged3
    ensures Logs(sb, fs1, fs3, logged3)
  {
  }

  /** Bitmap block b / BPB, data block b and data block c are all that may differ. */
  lemma LogsBlocks(sb: Super, fs1: Fs, fs2: Fs, logged: set<nat>, b: nat, c: nat)
    requires |fs1.bitmap| == |fs2.bitmap| && fs1.inodes == fs2.inodes && |fs1.data| == |fs2.data|
    requires forall j: nat | j < |fs1.bitmap| && j != b / BPB :: fs2.bitmap[j] == fs1.bitmap[j]
    requires forall x: nat | x < |fs1.data| && x != b && x != c :: fs2.data[x] == fs1.data[x]
    requires sb.bmapstart + b / BPB in logged && b in logged && c in logged
    ensures Logs(sb, fs1, fs2, logged)
  {
  }

  lemma LogsWrite(sb: Super, fs1: Fs, fs2: Fs, logged: set<nat>, b: nat)
    requires b < |fs1.data| == |fs2.data| && fs2 == Fs(fs1.bitmap, fs1.inodes, fs1.data[b := fs2.data[b]])
    requires b in logged
    ensures Logs(sb, fs1, fs2, logged)
  {
  }

  lemma LogsInode(sb: Super, fs1: Fs, fs2: Fs, logged: set<nat>, i: nat)
    requires i < |fs1.inodes| == |fs2.inodes| && fs2 == Fs(fs1.bitmap, fs1.inodes[i := fs2.inodes[i]], fs1.data)
    requires sb.inodestart + i / IPB in logged
    ensures Logs(sb, fs1, fs2, logged)
  {
  }

  lemma AddBlocks(s: set<nat>, x: nat, y: nat)
    ensures |s + {x}| <= |s| + 1 && |s + {x, y}| <= |s| + 2 && (x in s ==> s + {x} == s)
  {
  }

  /** The log blocks a file may still need for its indirect block: that block and its bitmap block. */
  ghost function Pending(logged: set<nat>, ind: nat): nat {
    if ind != 0 && ind in logged then 0 else 2
  }

  /** From fs0 to fs every changed block was logged, at most `cost` of them beside those for the indirect block. */
  ghost predicate Logging(sb: Super, fs0: Fs, logged0: set<nat>, ind0: nat, fs: Fs, logged: set<nat>, ind: nat,
                          cost: nat) {
    && Logs(sb, fs0, fs, logged) && logged0 <= logged
    && |logged| + Pending(logged, ind) <= |logged0| + Pending(logged0, ind0) + cost
  }

  lemma LoggingSelf(sb: Super, fs: Fs, logged: set<nat>, ind: nat)
    ensures Logging(sb, fs, logged, ind, fs, logged, ind, 0)
  {
  }

  lemma LoggingTwice(sb: Super, fs0: Fs, logged0: set<nat>, ind0: nat, fs1: Fs, logged1: set<nat>, ind1: nat,
                     cost1: nat,
                     fs2: Fs, logged2: set<nat>, ind2: nat, cost2: nat)
    requires Logging(sb, fs0, logged0, ind0, fs1, logged1, ind1, cost1)
    requires Logs(sb, fs1, fs2, logged2) && logged1 <= logged2
    ensures Logs(sb, fs0, fs2, logged2)
    ensures Logging(sb, fs1, logged1, ind1, fs2, logged2, ind2, cost2) ==>
              Logging(sb, fs0, logged0, ind0, fs2, logged2, ind2, cost1 + cost2)
  {
    hide Pending;
    LogsTwice(sb, fs0, fs1, fs2, logged1, logged2);
  }

  lemma LoggingCost(sb: Super, fs0: Fs, logged0: set<nat>, ind0: nat, fs: Fs, logged: set<nat>, ind: nat, cost: nat,
                    more: nat)
    requires Logging(sb, fs0, logged0, ind0, fs, logged, ind, cost) && cost <= more
    ensures Logging(sb, fs0, logged0, ind0, fs, logged, ind, more) && |logged| <= |logged0| + cost + 2
    ensures Logs(sb, fs0, fs, logged)
  {
  }

  /** What bmap adds to the blocks logged: nothing for a mapped block; for a new one the block itself and its
      bitmap block, beside what was pending for the indirect block. */
  ghost predicate Charged(logged1: set<nat>, logged2: set<nat>, ind1: nat, ind2: nat, addr: nat, mapped: bool) {
    && logged1 <= logged2
    && (mapped ==> logged2 == logged1 && ind2 == ind1)
    && (!mapped ==> addr in logged2 && |logged2| + Pending(logged2, ind2) <= |logged1| + Pending(logged1, ind1) + 2)
  }

  /** One round of the write loop logs at most two blocks beside those of the indirect block, and only one when
      the file block was mapped. */
  lemma RoundCost(logged1: set<nat>, logged2: set<nat>, ind1: nat, ind2: nat, addr: nat, mapped: bool)
    requires Charged(logged1, logged2, ind1, ind2, addr, mapped)
    ensures |logged2 + {addr}| + Pending(logged2 + {addr}, ind2)
              <= |logged1| + Pending(logged1, ind1) + if mapped then 1 else 2
  {
  }

  /** Every bitmap block that changed, and no block but bitmap blocks, has been added to those logged. */
  ghost predicate BitmapLogs(sb: Super, bm1: seq<Block>, logged1: set<nat>, bm2: seq<Block>, logged2: set<nat>)
    requires |bm1| == |bm2|
  {
    && (forall j: nat | j < |bm1| && bm1[j] != bm2[j] :: sb.bmapstart + j in logged2)
    && logged1 <= logged2 && (forall x | x in logged2 :: x in logged1 || sb.bmapstart <= x < sb.bmapstart + |bm1|)
  }

  lemma BitmapLogsSelf(sb: Super, bm: seq<Block>, logged: set<nat>)
    ensures BitmapLogs(sb, bm, logged, bm, logged)
  {
  }

  lemma BitmapLogsTwice(sb: Super, bm1: seq<Block>, logged1: set<nat>, bm2: seq<Block>, logged2: set<nat>,
                        bm3: seq<Block>, logged3: set<nat>)
    requires |bm1| == |bm2| == |bm3| && BitmapLogs(sb, bm1, logged1, bm2, logged2)
    requires BitmapLogs(sb, bm2, logged2, bm3, logged3)
    ensures BitmapLogs(sb, bm1, logged1, bm3, logged3)
  {
  }

  lemma BitmapLogsMore(sb: Super, bm1: seq<Block>, logged1: set<nat>, bm2: seq<Block>, logged2: set<nat>, b: nat)
    requires |bm1| == |bm2| && BitmapLogs(sb, bm1, logged1, bm2, logged2) && b < |bm2| * BPB && Used(bm2, b)
    ensures |Unmark(bm2, b)| == |bm1|
    ensures BitmapLogs(sb, bm1, logged1, Unmark(bm2, b), logged2 + {sb.bmapstart + b / BPB})
  {
    hide Used, Unmark;
  }

  lemma BitmapLogsAll(sb: Super, fs1: Fs, logged1: set<nat>, fs2: Fs, logged2: set<nat>, i: nat)
    requires |fs1.bitmap| == |fs2.bitmap| && BitmapLogs(sb, fs1.bitmap, logged1, fs2.bitmap, logged2)
    requires i < |fs1.inodes| && |fs2.inodes| == |fs1.inodes| && fs2.inodes == fs1.inodes[i := fs2.inodes[i]]
    requires fs2.data == fs1.data
    ensures Logs(sb, fs1, fs2, logged2 + {sb.inodestart + i / IPB})
  {
  }

  lemma NoneLeft(a: set<nat>, b: set<nat>)
    ensures a - b == {} <==> a <= b
  {
    assert forall x | x in a && x !in b :: x in a - b;
  }

  /** Where a read of n bytes at off ends. */
  function Last(size: nat, off: nat, n: nat): (r: nat)
    requires off <= size
    ensures off <= r <= size && r <= off + n && (r == off + n || r == size)
  {
    if off + n > size then size else off + n
  }

  /** What an operation on file blocks returns: a value, the panic of balloc, or a call into a device driver. */
  datatype Outcome = Ret(r: int) | OutOfBlocks | Driver(major: int)

  /** An in-memory inode: the copy of a disk inode that the locked inode cache entry holds. */
  class Inode {
    const inum: nat
    var d: Dinode

    constructor (inum: nat, d: Dinode)
      ensures this.inum == inum && this.d == d
    {
      this.inum := inum;
      this.d := d;
    }
  }

  class FsDisk {
    const sb: Super
    var bitmap: seq<Block>
    var inodes: seq<Dinode>        // on the disk
    var cached: seq<Dinode>        // in memory, or as on the disk where an inode is not in memory
    var data: seq<Block>
    ghost var own: seq<Owner>
    ghost var logged: set<nat>     // the blocks passed to log_write since begin_op

    constructor (sb: Super, fs: Fs, ghost own: seq<Owner>)
      ensures this.sb == sb && OnDisk() == fs && cached == fs.inodes && this.own == own && logged == {}
    {
      this.sb := sb;
      bitmap, inodes, cached, data := fs.bitmap, fs.inodes, fs.inodes, fs.data;
      this.own := own;
      logged := {};
    }

    /** What is on the disk. */
    ghost function OnDisk(): Fs
      reads this
    {
      Fs(bitmap, inodes, data)
    }

    /** The file system as it is in memory, where ip is the inode being worked on. */
    ghost function View(ip: Inode): Fs
      requires ip.inum < |cached|
      reads this, ip
    {
      Fs(bitmap, cached[ip.inum := ip.d], data)
    }

    ghost predicate Good(ip: Inode)
      reads this, ip
    {
      && ip.inum < |cached| == |inodes| && |ip.d.addrs| == NDIRECT + 1 && ip.d.addrs[NDIRECT] < sb.size
      && ip.d.size <= MAXFILE * BSIZE
      && |data| == |own| == sb.size <= |bitmap| * BPB && sb.size <= WORD_LIMIT
      && Inv(sb, View(ip), own)
    }

    /** Has the file a block for file block bn? */
    ghost predicate Has(ip: Inode, bn: nat)
      requires Good(ip) && bn < MAXFILE
      reads this, ip
    {
      Mapped(View(ip), ip.inum, bn)
    }

    ghost predicate Solid(ip: Inode)
      requires Good(ip)
      reads this, ip
    {
      NoHole(View(ip), ip.inum)
    }

    ghost function File(ip: Inode): seq<Byte>
      requires Good(ip)
      reads this, ip
    {
      Contents(View(ip), ip.inum)
    }

    /** The references the inode has, and the blocks that are free. */
    ghost function Refs(ip: Inode): set<nat>
      requires Good(ip)
      reads this, ip
    {
      RefsOf(View(ip), ip.inum)
    }

    /** All its bytes, also those beyond the size. */
    ghost function Bytes(ip: Inode): seq<Byte>
      requires Good(ip)
      reads this, ip
    {
      AllBytes(View(ip), ip.inum)
    }

    /** Memory and disk agree, and no block is lost. */
    ghost predicate InSync(ip: Inode)
      requires Good(ip)
      reads this, ip
    {
      inodes == cached[ip.inum := ip.d] && NoneLost(own)
    }

    ghost function FreeBlocks(): set<nat>
      requires sb.size <= |bitmap| * BPB
      reads this
    {
      FreeSet(sb, bitmap)
    }

    /** begin_op: the operation has logged nothing yet. */
    method BeginOp()
      modifies this`logged
      ensures logged == {}
    {
      logged := {};
    }

    /** balloc: the first free block, marked and zeroed. */
    method Balloc() returns (b: int)
      requires sb.size <= |bitmap| * BPB && |data| == sb.size
      modifies this`bitmap, this`data, this`logged
      ensures -1 <= b < sb.size
      ensures b < 0 ==> unchanged(this) && forall c: nat | c < sb.size :: Used(bitmap, c)
      ensures 0 <= b ==> !Used(old(bitmap), b) && forall c: nat | c < b :: Used(old(bitmap), c)
      ensures 0 <= b ==> bitmap == Mark(old(bitmap), b) && data == old(data)[b := Zero()]
      ensures 0 <= b ==> logged == old(logged) + {sb.bmapstart + b / BPB, b}
    {
      b := FindFree(bitmap, sb.size);
      if b < 0 {
        return;
      }
      bitmap := Mark(bitmap, b);
      data := data[b := Zero()];
      logged := logged + {sb.bmapstart + b / BPB, b};
    }

    /** bfree: the block must be in use, which is what the panic of bfree checks. */
    method Bfree(b: nat)
      requires b < |bitmap| * BPB && Used(bitmap, b)
      modifies this`bitmap, this`logged
      ensures bitmap == Unmark(old(bitmap), b)
      ensures logged == old(logged) + {sb.bmapstart + b / BPB}
    {
      bitmap := Unmark(bitmap, b);
      logged := logged + {sb.bmapstart + b / BPB};
    }

    /** iupdate: the in-memory inode is copied to the disk. */
    method Iupdate(ip: Inode)
      requires ip.inum < |cached| == |inodes|
      modifies this`inodes, this`logged
      ensures inodes == old(inodes)[ip.inum := ip.d] && View(ip) == old(View(ip))
      ensures logged == old(logged) + {sb.inodestart + ip.inum / IPB}
    {
      inodes := inodes[ip.inum := ip.d];
      logged := logged + {sb.inodestart + ip.inum / IPB};
    }

    /** A missing direct block, or the missing indirect block, of bmap. */
    method AllocAddr(ip: Inode, k: nat) returns (ok: bool)
      requires Good(ip) && k <= NDIRECT && ip.d.addrs[k] == 0
      modifies this`bitmap, this`data, this`own, this`logged, ip`d
      ensures Good(ip) && Extended(sb, old(View(ip)), old(own), View(ip), own, ip.inum)
      ensures !ok ==> unchanged(this) && unchanged(ip) && forall c: nat | c < sb.size :: Used(bitmap, c)
      ensures ok ==> 0 < ip.d.addrs[k] < sb.size && ip.d == SetAddr(old(ip.d), k, ip.d.addrs[k])
      ensures ok ==> forall m: nat | m < REFS && m != k :: Ref(View(ip), ip.inum, m) == old(Ref(View(ip), ip.inum, m))
      ensures old(FreeBlocks()) == {} ==> !ok
      ensures ok ==> logged == old(logged) + {sb.bmapstart + ip.d.addrs[k] / BPB, ip.d.addrs[k]}
      ensures Logs(sb, old(OnDisk()), OnDisk(), logged)
    {
      hide Ref, Used, Mark, Inv, Extended, Logs;
      ghost var fs := View(ip);
      AddrRef(fs, ip.inum, k);
      ExtendedSelf(sb, fs, own, ip.inum);
      LogsSelf(sb, OnDisk(), logged);
      var b := Balloc();
      if b < 0 {
        return false;
      }
      assert b in old(FreeBlocks());
      AddSlot(sb, fs, own, ip.inum, k, b);
      ip.d := SetAddr(ip.d, k, b);
      assert View(ip) == AllocSlot(fs, ip.inum, k, b);
      own := own[b := Held(ip.inum, k)];
      LogsBlocks(sb, old(OnDisk()), OnDisk(), logged, b, b);
      ok := true;
    }

    /** A missing entry of the indirect block of bmap. */
    method AllocEntry(ip: Inode, j: nat) returns (ok: bool, b: nat)
      requires Good(ip) && j < NINDIRECT && ip.d.addrs[NDIRECT] != 0 && Ref(View(ip), ip.inum, NDIRECT + 1 + j) == 0
      modifies this`bitmap, this`data, this`own, this`logged
      ensures Good(ip) && Extended(sb, old(View(ip)), old(own), View(ip), own, ip.inum)
      ensures !ok ==> unchanged(this) && forall c: nat | c < sb.size :: Used(bitmap, c)
      ensures old(FreeBlocks()) == {} ==> !ok
      ensures ok ==> 0 < b < sb.size && Ref(View(ip), ip.inum, NDIRECT + 1 + j) == b
      ensures forall m: nat | m < REFS && m != NDIRECT + 1 + j ::
                Ref(View(ip), ip.inum, m) == old(Ref(View(ip), ip.inum, m))
      ensures ok ==> logged == old(logged) + {sb.bmapstart + b / BPB, b, ip.d.addrs[NDIRECT]}
      ensures Logs(sb, old(OnDisk()), OnDisk(), logged)
    {
      hide Ref, Used, Mark, Inv, Extended, PutWord, Logs, Zero, WordAt;
      ghost var fs := View(ip);
      AddrRef(fs, ip.inum, NDIRECT);
      ExtendedSelf(sb, fs, own, ip.inum);
      LogsSelf(sb, OnDisk(), logged);
      var free := Balloc();
      if free < 0 {
        return false, 0;
      }
      b := free;
      assert b in old(FreeBlocks());
      AddEntry(sb, fs, own, ip.inum, j, b);
      data := PutEntry(data, ip.d.addrs[NDIRECT], j, b);
      logged := logged + {ip.d.addrs[NDIRECT]};
      assert View(ip) == FsModel.AllocEntry(fs, ip.inum, j, b);
      own := own[b := Held(ip.inum, NDIRECT + 1 + j)];
      LogsBlocks(sb, old(OnDisk()), OnDisk(), logged, b, ip.d.addrs[NDIRECT]);
      ok := true;
    }

    /** The second half of bmap: file block NDIRECT + j. */
    method BmapIndirect(ip: Inode, j: nat) returns (ok: bool, addr: nat)
      requires Good(ip) && j < NINDIRECT
      modifies this`bitmap, this`data, this`own, this`logged, ip`d
      ensures Good(ip) && Extended(sb, old(View(ip)), old(own), View(ip), own, ip.inum)
      ensures ok ==> 0 < addr < sb.size && Ref(View(ip), ip.inum, NDIRECT + 1 + j) == addr
      ensures !ok ==> Ref(View(ip), ip.inum, NDIRECT + 1 + j) == 0 && forall c: nat | c < sb.size :: Used(bitmap, c)
      ensures old(FreeBlocks()) == {} ==> unchanged(this)
      ensures forall m: nat | m < REFS && m != NDIRECT && m != NDIRECT + 1 + j ::
                Ref(View(ip), ip.inum, m) == old(Ref(View(ip), ip.inum, m))
      ensures old(Ref(View(ip), ip.inum, NDIRECT + 1 + j)) != 0 ==> ok && unchanged(this) && unchanged(ip)
      ensures old(ip.d.addrs[NDIRECT]) != 0 ==> unchanged(ip)
      ensures Logs(sb, old(OnDisk()), OnDisk(), logged)
      ensures old(logged) <= logged
      ensures ok && old(Ref(View(ip), ip.inum, NDIRECT + 1 + j)) == 0 ==>
                addr in logged && ip.d.addrs[NDIRECT] in logged
      ensures ok ==>
                |logged| <= |old(logged)|
                            + if old(ip.d.addrs[NDIRECT]) != 0 && old(ip.d.addrs[NDIRECT]) in old(logged) then 2 else 4
    {
      hide Used, Inv, Extended, Logs, WordAt;
      ExtendedSelf(sb, View(ip), own, ip.inum);
      LogsSelf(sb, OnDisk(), logged);
      ok := true;
      if ip.d.addrs[NDIRECT] == 0 {
        ok := AllocAddr(ip, NDIRECT);
        if !ok {
          return false, 0;
        }
      }
      ghost var fs1, own1, disk1, logged1 := View(ip), own, OnDisk(), logged;
      addr := WordAt(data[ip.d.addrs[NDIRECT]], j);
      assert addr == Ref(View(ip), ip.inum, NDIRECT + 1 + j);
      Bounds(sb, View(ip), own, ip.inum);
      if addr == 0 {
        ok, addr := AllocEntry(ip, j);
        ExtendedTwice(sb, old(View(ip)), old(own), fs1, own1, View(ip), own, ip.inum);
        LogsTwice(sb, old(OnDisk()), disk1, OnDisk(), logged1, logged);
      }
    }

    /** bmap: the disk block of file block bn, allocated when missing. */
    method Bmap(ip: Inode, bn: nat) returns (ok: bool, addr: nat)
      requires Good(ip) && bn < MAXFILE
      modifies this`bitmap, this`data, this`own, this`logged, ip`d
      ensures Good(ip) && Extended(sb, old(View(ip)), old(own), View(ip), own, ip.inum)
      ensures ok ==> 0 < addr < sb.size && Ref(View(ip), ip.inum, SlotOf(bn)) == addr
      ensures !ok ==> forall c: nat | c < sb.size :: Used(bitmap, c)
      ensures old(FreeBlocks()) == {} ==> unchanged(this)
      ensures ok <==> AllRefs(View(ip), ip.inum, bn * BSIZE, 1)
      ensures RefsOnly(old(View(ip)), View(ip), ip.inum, bn * BSIZE, 1)
      ensures old(Has(ip, bn)) ==> ok && unchanged(this) && unchanged(ip)
      ensures old(ip.d.addrs[AddrSlot(bn)]) != 0 ==> unchanged(ip)
      ensures Logs(sb, old(OnDisk()), OnDisk(), logged)
      ensures old(logged) <= logged
      ensures ok ==> Charged(old(logged), logged, old(ip.d.addrs[NDIRECT]), ip.d.addrs[NDIRECT], addr, old(Has(ip, bn)))
    {
      hide Used, Inv, Extended, Logs, WordAt;
      Bounds(sb, View(ip), own, ip.inum);
      ExtendedSelf(sb, View(ip), own, ip.inum);
      LogsSelf(sb, OnDisk(), logged);
      if bn < NDIRECT {
        addr := ip.d.addrs[bn];
        assert addr == Ref(View(ip), ip.inum, bn);
        ok := true;
        if addr == 0 {
          ok := AllocAddr(ip, bn);
          addr := ip.d.addrs[bn];
        }
      } else {
        ok, addr := BmapIndirect(ip, bn - NDIRECT);
      }
      MappedRefs(View(ip), ip.inum, bn);
    }

    /** Is the call within the limits of readi and writei (src/fs.c)?  The sum is one of 32-bit unsigned numbers. */
    predicate InRange(ip: Inode, off: nat, n: nat)
      reads ip
    {
      off <= ip.d.size && off <= (off + n) % WORD_LIMIT
    }

    /** The references that reading n bytes at off needs and the inode does not have. */
    ghost function Missing(ip: Inode, off: nat, n: nat): set<nat>
      requires Good(ip)
      reads this, ip
    {
      if off > ip.d.size then {} else Needed(off, Last(ip.d.size, off, n) - off) - Refs(ip)
    }

    /** One round of it: the bytes from pos on, to the end of the block or of the read. */
    method ReadRound(ip: Inode, pos: nat, last: nat, ghost fs0: Fs, ghost own0: seq<Owner>)
      returns (ok: bool, part: seq<Byte>)
      requires Good(ip) && pos < last <= ip.d.size && Extended(sb, fs0, own0, View(ip), own, ip.inum)
      modifies this`bitmap, this`data, this`own, this`logged, ip`d
      ensures Good(ip) && Extended(sb, fs0, own0, View(ip), own, ip.inum) && ip.d.size == old(ip.d.size)
      ensures ok <==> AllRefs(View(ip), ip.inum, pos / BSIZE * BSIZE, 1)
      ensures RefsOnly(old(View(ip)), View(ip), ip.inum, pos / BSIZE * BSIZE, 1)
      ensures !ok ==> forall c: nat | c < sb.size :: Used(bitmap, c)
      ensures old(FreeBlocks()) == {} ==> unchanged(this)
      ensures old(Has(ip, pos / BSIZE)) ==> unchanged(this) && unchanged(ip)
      ensures Logs(sb, old(OnDisk()), OnDisk(), logged) && old(logged) <= logged
      ensures ok ==> Logging(sb, old(OnDisk()), old(logged), old(ip.d.addrs[NDIRECT]),
                             OnDisk(), logged, ip.d.addrs[NDIRECT], 2)
      ensures old(ip.d.addrs[AddrSlot(pos / BSIZE)]) != 0 ==> unchanged(ip)
      ensures ok ==> 0 < |part| && pos + |part| <= last && pos % BSIZE + |part| <= BSIZE
      ensures ok ==> pos + |part| == last || (pos + |part|) % BSIZE == 0
      ensures ok ==> part == SliceOf(sb, fs0, ip.inum, pos, |part|)
    {
      hide Used, Inv, Extended, Logs, Ref, ByteAt, AllRefs, RefsOnly, FreeSet, Pending;
      Bounds(sb, View(ip), own, ip.inum);
      ghost var fs1, own1 := View(ip), own;
      var addr;
      part := [];
      ok, addr := Bmap(ip, pos / BSIZE);
      ExtendedTwice(sb, fs0, own0, fs1, own1, View(ip), own, ip.inum);
      SizeKept(sb, fs1, own1, View(ip), own, ip.inum);
      if ok {
        var m := if last - pos < BSIZE - pos % BSIZE then last - pos else BSIZE - pos % BSIZE;
        ReadStep(sb, fs0, own0, View(ip), own, ip.inum, pos, m, addr);
        part := data[addr][pos % BSIZE..pos % BSIZE + m];
        SliceIs(sb, fs0, own0, View(ip), own, ip.inum, pos, part);
      }
    }

    /** The loop of readi. */
    method ReadBlocks(ip: Inode, off: nat, last: nat) returns (ok: bool, dst: seq<Byte>)
      requires Good(ip) && off <= last <= ip.d.size
      modifies this`bitmap, this`data, this`own, this`logged, ip`d
      ensures Good(ip) && Extended(sb, old(View(ip)), old(own), View(ip), own, ip.inum)
      ensures ok ==> dst == old(File(ip))[off..last]
      ensures Needed(off, last - off) <= old(Refs(ip)) ==> unchanged(this) && unchanged(ip)
      ensures old(FreeBlocks()) == {} ==> unchanged(this)
      ensures !ok ==> forall c: nat | c < sb.size :: Used(bitmap, c)
      ensures ok <==> |Needed(off, last - off) - old(Refs(ip))| <= |old(FreeBlocks())|
      ensures ok ==> |FreeBlocks()| == |old(FreeBlocks())| - |Needed(off, last - off) - old(Refs(ip))|
      ensures ok ==> Refs(ip) == old(Refs(ip)) + Needed(off, last - off)
      ensures AddrsReady(old(ip.d), off, last - off) ==> ip.d == old(ip.d)
      ensures Logs(sb, old(OnDisk()), OnDisk(), logged)
      ensures ok ==> |logged| <= |old(logged)| + 2 * Span(off, last - off) + 2
    {
      hide Used, Inv, Extended, Logs, Logging, Ref, ByteAt, Contents, SliceOf, Charged, Pending, Span, AddrsReady,
           SameLost, Needed, RefsOf, FreeSet, Taking, AllRefs, RefsOnly, Grown, Mapped;
      dst := [];
      ExtendedSelf(sb, View(ip), own, ip.inum);
      Bounds(sb, View(ip), own, ip.inum);
      ghost var fs0 := View(ip);
      TakingStart(sb, fs0, own, ip.inum, off, last - off);
      SliceMore(sb, fs0, own, ip.inum, off, 0, 0);
      LoggingSelf(sb, OnDisk(), logged, ip.d.addrs[NDIRECT]);
      SpanNone(off);
      ghost var len := last - off;
      var n := 0;
      while off + n < last
        invariant off + n <= last <= ip.d.size && ip.d.size == old(ip.d.size)
        invariant n == 0 || (off + n) % BSIZE == 0 || n == len
        invariant Good(ip) && Extended(sb, fs0, old(own), View(ip), own, ip.inum)
        invariant Taking(sb, fs0, View(ip), ip.inum, off, n, len)
        invariant dst == SliceOf(sb, fs0, ip.inum, off, n)
        invariant Needed(off, len) <= RefsOf(fs0, ip.inum) ==> unchanged(this) && unchanged(ip)
        invariant old(FreeBlocks()) == {} ==> unchanged(this)
        invariant AddrsReady(old(ip.d), off, len) ==> ip.d == old(ip.d)
        invariant Logging(sb, old(OnDisk()), old(logged), old(ip.d.addrs[NDIRECT]),
                          OnDisk(), logged, ip.d.addrs[NDIRECT], 2 * Span(off, n))
      {
        ghost var fs1, disk1, logged1, ind1 := View(ip), OnDisk(), logged, ip.d.addrs[NDIRECT];
        if AddrsReady(old(ip.d), off, len) {
          ReadyAt(old(ip.d), off, len, n);
        }
        if Needed(off, len) <= RefsOf(fs0, ip.inum) {
          NeededMapped(fs0, ip.inum, off, len, off + n);
        }
        var part;
        ok, part := ReadRound(ip, off + n, last, fs0, old(own));
        LoggingTwice(sb, old(OnDisk()), old(logged), old(ip.d.addrs[NDIRECT]), disk1, logged1, ind1,
                     2 * Span(off, n), OnDisk(), logged, ip.d.addrs[NDIRECT], 2);
        if !ok {
          ReadingStuck(sb, fs0, old(own), fs1, View(ip), own, ip.inum, off, n, len);
          return;
        }
        ReadingTook(sb, fs0, old(own), fs1, View(ip), own, ip.inum, off, n, |part|, len);
        SpanStep(off, n, |part|);
        SliceMore(sb, fs0, old(own), ip.inum, off, n, |part|);
        dst := dst + part;
        n := n + |part|;
      }
      LoggingCost(sb, old(OnDisk()), old(logged), old(ip.d.addrs[NDIRECT]), OnDisk(), logged, ip.d.addrs[NDIRECT],
                  2 * Span(off, len), 2 * Span(off, len));
      ExtendedLost(sb, fs0, old(own), View(ip), own, ip.inum);
      SliceContents(sb, fs0, old(own), ip.inum, off, last);
      TakingDone(sb, fs0, old(own), View(ip), own, ip.inum, off, len);
      ok := true;
    }

    /** readi.  Reading a hole allocates its blocks, as writing does. */
    method Readi(ip: Inode, off: nat, n: nat, drivers: set<int>) returns (out: Outcome, dst: seq<Byte>)
      requires Good(ip) && off < WORD_LIMIT && n < WORD_LIMIT
      modifies this`bitmap, this`data, this`own, this`logged, ip`d
      ensures Good(ip) && Extended(sb, old(View(ip)), old(own), View(ip), own, ip.inum)
      ensures old(ip.d.typ) == T_DEV ==>
                out == if 0 <= old(ip.d.major) < NDEV && old(ip.d.major) in drivers
                       then Driver(old(ip.d.major)) else Ret(-1)
      ensures old(ip.d.typ) != T_DEV ==> (out == Ret(-1) <==> !old(InRange(ip, off, n)))
      ensures old(ip.d.typ) != T_DEV ==> (out == Ret(-1) <==> off > old(ip.d.size) || off + n >= WORD_LIMIT)
      ensures old(ip.d.typ) != T_DEV ==> !out.Driver? && (out.Ret? ==> out.r >= -1)
      ensures old(ip.d.typ) == T_DEV || !old(InRange(ip, off, n)) || old(Missing(ip, off, n)) == {} ==>
                unchanged(this) && unchanged(ip)
      ensures old(Solid(ip)) ==> old(Missing(ip, off, n)) == {}
      ensures old(FreeBlocks()) == {} ==> unchanged(this)
      ensures out.OutOfBlocks? <==> old(ip.d.typ) != T_DEV && old(InRange(ip, off, n))
                                    && |old(Missing(ip, off, n))| > |old(FreeBlocks())|
      ensures out.OutOfBlocks? ==> forall c: nat | c < sb.size :: Used(bitmap, c)
      ensures old(ip.d.typ) != T_DEV && out.Ret? && out.r >= 0 ==>
                && out.r == |dst| && dst == old(File(ip))[off..Last(old(ip.d.size), off, n)]
                && |dst| <= n && off + |dst| <= old(ip.d.size) && (|dst| == n || off + |dst| == old(ip.d.size))
                && dst == old(File(ip))[off..off + |dst|]
                && |FreeBlocks()| == |old(FreeBlocks())| - |old(Missing(ip, off, n))|
                && Refs(ip) == old(Refs(ip)) + Needed(off, Last(old(ip.d.size), off, n) - off)
                && |logged| <= |old(logged)| + 2 * Span(off, Last(old(ip.d.size), off, n) - off) + 2
      ensures Logs(sb, old(OnDisk()), OnDisk(), logged)
      ensures out.Ret? && out.r >= 0 && old(InSync(ip)) ==>
                (Owned(sb, OnDisk()) <==> AddrsReady(old(ip.d), off, Last(old(ip.d.size), off, n) - off))
    {
      hide Used, Inv, Extended, Contents, NoHole, Needed, RefsOf, FreeSet, Logs, Span, AddrsReady, Owns;
      dst := [];
      LogsSelf(sb, OnDisk(), logged);
      ExtendedSelf(sb, View(ip), own, ip.inum);
      NothingMissing(sb, View(ip), own, ip.inum, off, n);
      if ip.d.typ == T_DEV {
        out := if ip.d.major < 0 || ip.d.major >= NDEV || ip.d.major !in drivers then Ret(-1) else Driver(ip.d.major);
        return;
      }
      if off > ip.d.size || (off + n) % WORD_LIMIT < off {
        return Ret(-1), [];
      }
      Bounds(sb, View(ip), own, ip.inum);
      var last := if (off + n) % WORD_LIMIT > ip.d.size then ip.d.size else off + n;
      assert last == Last(ip.d.size, off, n);
      NoneLeft(Needed(off, last - off), Refs(ip));
      var ok;
      ok, dst := ReadBlocks(ip, off, last);
      if ok && old(InSync(ip)) {
        ReadingStale(sb, old(View(ip)), old(own), View(ip), own, ip.inum, off, last - off);
        assert OnDisk() == Fs(View(ip).bitmap, View(ip).inodes[ip.inum := inodes[ip.inum]], View(ip).data);
      }
      out := if ok then Ret(last - off) else OutOfBlocks;
    }

    /** One round of the loop of writei. */
    method WriteRound(ip: Inode, src: seq<Byte>, off: nat, tot: nat, ghost fs0: Fs) returns (ok: bool, next: nat)
      requires Good(ip) && tot < |src| && (tot == 0 || (off + tot) % BSIZE == 0)
      requires Writing(sb, fs0, View(ip), own, ip.inum, off, src, tot) && (off + tot) / BSIZE < MAXFILE
      modifies this`bitmap, this`data, this`own, this`logged, ip`d
      ensures Good(ip) && old(logged) <= logged && SameLost(old(own), own)
      ensures ok ==>
                tot < next <= |src| && (off + tot) % BSIZE + (next - tot) <= BSIZE
                  && (next == |src| || (off + next) % BSIZE == 0) && Span(off, next) == Span(off, tot) + 1
      ensures ok ==> Writing(sb, fs0, View(ip), own, ip.inum, off, src, next)
      ensures !ok ==>
                Extended(sb, old(View(ip)), old(own), View(ip), own, ip.inum)
                  && forall c: nat | c < sb.size :: Used(bitmap, c)
      ensures RefsOnly(old(View(ip)), View(ip), ip.inum, (off + tot) / BSIZE * BSIZE, 1)
      ensures ok <==> AllRefs(View(ip), ip.inum, (off + tot) / BSIZE * BSIZE, 1)
      ensures old(Has(ip, (off + tot) / BSIZE)) ==> ok && unchanged(ip)
      ensures old(ip.d.addrs[AddrSlot((off + tot) / BSIZE)]) != 0 ==> unchanged(ip)
      ensures Logs(sb, old(OnDisk()), OnDisk(), logged)
      ensures old(logged) <= logged
      ensures ok ==> Logging(sb, old(OnDisk()), old(logged), old(ip.d.addrs[NDIRECT]), OnDisk(), logged,
                             ip.d.addrs[NDIRECT], if old(Has(ip, (off + tot) / BSIZE)) then 1 else 2)
    {
      hide Used, Inv, Extended, Logs, Ref, ByteAt, Charged, Pending, Writing, Owns, Splice, Span, SameLost;
      ghost var fs1, own1 := View(ip), own;
      var pos := off + tot;
      var addr;
      ok, addr := Bmap(ip, pos / BSIZE);
      ExtendedLost(sb, fs1, own1, View(ip), own, ip.inum);
      if !ok {
        return false, tot;
      }
      RoundCost(old(logged), logged, old(ip.d.addrs[NDIRECT]), ip.d.addrs[NDIRECT], addr,
                old(Has(ip, (off + tot) / BSIZE)));
      ghost var fs2, disk2, logged2 := View(ip), OnDisk(), logged;
      var m := if |src| - tot < BSIZE - pos % BSIZE then |src| - tot else BSIZE - pos % BSIZE;
      data := data[addr := Splice(data[addr], pos % BSIZE, src[tot..tot + m])];
      logged := logged + {addr};
      next := tot + m;
      WritingStep(sb, fs0, fs1, own1, fs2, own, View(ip), ip.inum, off, src, tot, m, addr);
      SpanStep(off, tot, m);
      WritingInv(sb, fs0, View(ip), own, ip.inum, off, src, next);
      LogsWrite(sb, disk2, OnDisk(), logged, addr);
      LogsTwice(sb, old(OnDisk()), disk2, OnDisk(), logged2, logged);
    }

    /** The file has no hole, and off is not beyond its end. */
    ghost predicate Firm(ip: Inode, off: nat)
      requires Good(ip)
      reads this, ip
    {
      Solid(ip) && off <= ip.d.size
    }

    /** The loop of writei. */
    method WriteBlocks(ip: Inode, src: seq<Byte>, off: nat) returns (ok: bool)
      requires Good(ip) && off + |src| <= MAXFILE * BSIZE
      modifies this`bitmap, this`data, this`own, this`logged, ip`d
      ensures Good(ip) && SameLost(old(own), own)
      ensures ok ==> Writing(sb, old(View(ip)), View(ip), own, ip.inum, off, src, |src|)
      ensures !ok ==> forall c: nat | c < sb.size :: Used(bitmap, c)
      ensures ok <==> |Needed(off, |src|) - old(Refs(ip))| <= |old(FreeBlocks())|
      ensures ok ==> Refs(ip) == old(Refs(ip)) + Needed(off, |src|)
      ensures ok ==> |FreeBlocks()| == |old(FreeBlocks())| - |Needed(off, |src|) - old(Refs(ip))|
      ensures old(Firm(ip, off)) && off + |src| <= old(ip.d.size) ==> ok && unchanged(ip)
      ensures ok ==> (ip.d == old(ip.d) <==> AddrsReady(old(ip.d), off, |src|))
      ensures Logs(sb, old(OnDisk()), OnDisk(), logged)
      ensures ok ==> |logged| <= |old(logged)| + Cost(off, |src|, old(Firm(ip, off))) + 2
    {
      assert Cost(off, 0, old(Firm(ip, off))) == 0;
      hide Used, Inv, Extended, Logs, Logging, SameLost, Ref, ByteAt, Pending, Writing, Owns, Span, WordAt, Cost,
           NoHole, Mapped,
           AddrsReady,
           Taking, RefsOnly, AllRefs, Needed, RefsOf, FreeSet, Grown;
      Bounds(sb, View(ip), own, ip.inum);
      LoggingSelf(sb, OnDisk(), logged, ip.d.addrs[NDIRECT]);
      ghost var fs0 := View(ip);
      ghost var noHole := Firm(ip, off);
      WritingStart(sb, fs0, own, ip.inum, off, src);
      TakingStart(sb, fs0, own, ip.inum, off, |src|);
      var tot := 0;
      while tot < |src|
        invariant tot <= |src| && (tot == 0 || (off + tot) % BSIZE == 0 || tot == |src|)
        invariant Good(ip) && Writing(sb, fs0, View(ip), own, ip.inum, off, src, tot)
        invariant Taking(sb, fs0, View(ip), ip.inum, off, tot, |src|) && SameLost(old(own), own)
        invariant noHole && off + |src| <= old(ip.d.size) ==> unchanged(ip)
        invariant AddrsReady(old(ip.d), off, |src|) ==> ip.d == old(ip.d)
        invariant Logging(sb, old(OnDisk()), old(logged), old(ip.d.addrs[NDIRECT]), OnDisk(), logged,
                          ip.d.addrs[NDIRECT], Cost(off, tot, noHole))
      {
        ghost var disk1, logged1, ind1 := OnDisk(), logged, ip.d.addrs[NDIRECT];
        ghost var mapped := Has(ip, (off + tot) / BSIZE);
        if AddrsReady(old(ip.d), off, |src|) {
          ReadyAt(old(ip.d), off, |src|, tot);
        }
        if noHole {
          WritingMapped(sb, fs0, View(ip), own, ip.inum, off, src, tot);
        }
        var next;
        ghost var fs1, own1 := View(ip), own;
        ok, next := WriteRound(ip, src, off, tot, fs0);
        LoggingTwice(sb, old(OnDisk()), old(logged), old(ip.d.addrs[NDIRECT]), disk1, logged1, ind1,
                     Cost(off, tot, noHole), OnDisk(), logged, ip.d.addrs[NDIRECT], if mapped then 1 else 2);
        SameLostTwice(old(own), own1, own);
        if !ok {
          WritingStuck(sb, fs0, old(own), fs1, own1, View(ip), own, ip.inum, off, src, tot);
          return;
        }
        WritingTook(sb, fs0, fs1, View(ip), own, ip.inum, off, src, tot, next);
        CostStep(off, tot, next, noHole, mapped);
        LoggingCost(sb, old(OnDisk()), old(logged), old(ip.d.addrs[NDIRECT]), OnDisk(), logged, ip.d.addrs[NDIRECT],
                    Cost(off, tot, noHole) + (if mapped then 1 else 2), Cost(off, next, noHole));
        tot := next;
      }
      WritingAddrs(sb, fs0, View(ip), own, ip.inum, off, src);
      LoggingCost(sb, old(OnDisk()), old(logged), old(ip.d.addrs[NDIRECT]), OnDisk(), logged, ip.d.addrs[NDIRECT],
                  Cost(off, |src|, noHole), Cost(off, |src|, noHole));
      TakingDone(sb, fs0, old(own), View(ip), own, ip.inum, off, |src|);
      ok := true;
    }

    /** writei. */
    method Writei(ip: Inode, src: seq<Byte>, off: nat, drivers: set<int>) returns (out: Outcome)
      requires Good(ip) && off < WORD_LIMIT && |src| < WORD_LIMIT
      modifies this`bitmap, this`inodes, this`data, this`own, this`logged, ip`d
      ensures Good(ip)
      ensures old(ip.d.typ) == T_DEV ==> unchanged(this) && unchanged(ip)
      ensures old(ip.d.typ) == T_DEV ==>
                out == if 0 <= old(ip.d.major) < NDEV && old(ip.d.major) in drivers
                       then Driver(old(ip.d.major)) else Ret(-1)
      ensures old(ip.d.typ) != T_DEV ==>
                (out == Ret(-1) <==> !old(InRange(ip, off, |src|)) || off + |src| > MAXFILE * BSIZE)
      ensures old(ip.d.typ) != T_DEV ==> (out == Ret(-1) <==> off > old(ip.d.size) || off + |src| > MAXFILE * BSIZE)
      ensures out == Ret(-1) ==> unchanged(this) && unchanged(ip)
      ensures out.Driver? ==> old(ip.d.typ) == T_DEV
      ensures out.OutOfBlocks? ==> forall c: nat | c < sb.size :: Used(bitmap, c)
      ensures out.OutOfBlocks? <==>
                && old(ip.d.typ) != T_DEV && old(InRange(ip, off, |src|)) && off + |src| <= MAXFILE * BSIZE
                && |Needed(off, |src|) - old(Refs(ip))| > |old(FreeBlocks())|
      ensures out.Ret? && out.r != -1 ==>
                && Refs(ip) == old(Refs(ip)) + Needed(off, |src|)
                && |FreeBlocks()| == |old(FreeBlocks())| - |Needed(off, |src|) - old(Refs(ip))|
      ensures out.Ret? && out.r != -1 ==>
                && out.r == |src|
                && File(ip) == Replace(old(File(ip)), off, src)
                && OthersKept(sb, old(View(ip)), View(ip), ip.inum)
                && ip.d == old(ip.d).(size := ip.d.size, addrs := ip.d.addrs)
                && forall k: nat | k <= NDIRECT :: old(ip.d.addrs)[k] != 0 ==> ip.d.addrs[k] == old(ip.d.addrs)[k]
      ensures out.Ret? && old(Solid(ip)) ==> Solid(ip)
      ensures out.Ret? && out.r != -1 ==>
                && inodes == (if off + |src| > old(ip.d.size) then old(inodes)[ip.inum := ip.d] else old(inodes))
                && ip.d.size == (if off + |src| > old(ip.d.size) then off + |src| else old(ip.d.size))
                && Bytes(ip) == Patch(old(Bytes(ip)), off, src) && SameLost(old(own), own)
      ensures out.Ret? && old(Solid(ip)) && old(inodes[ip.inum] == ip.d) ==> inodes[ip.inum] == ip.d
      ensures out.Ret? && out.r != -1 && old(inodes[ip.inum] == ip.d) ==>
                (inodes[ip.inum] == ip.d <==> off + |src| > old(ip.d.size) || AddrsReady(old(ip.d), off, |src|))
      ensures out.Ret? && out.r != -1 && old(InSync(ip)) ==>
                (Owned(sb, OnDisk()) <==> off + |src| > old(ip.d.size) || AddrsReady(old(ip.d), off, |src|))
      ensures out.Ret? ==> |logged| <= |old(logged)| + Cost(off, |src|, old(Solid(ip))) + 3
      ensures Logs(sb, old(OnDisk()), OnDisk(), logged)
    {
      hide Used, Inv, Logs, Ref, ByteAt, Writing, Owns, Span, Slice, Replace, AddrsReady, Needed, FreeSet, RefsOf,
           Patch, AllBytes;
      LogsSelf(sb, OnDisk(), logged);
      if ip.d.typ == T_DEV {
        out := if ip.d.major < 0 || ip.d.major >= NDEV || ip.d.major !in drivers then Ret(-1) else Driver(ip.d.major);
        return;
      }
      if off > ip.d.size || (off + |src|) % WORD_LIMIT < off {
        return Ret(-1);
      }
      if (off + |src|) % WORD_LIMIT > MAXFILE * BSIZE {
        return Ret(-1);
      }
      var ok := WriteBlocks(ip, src, off);
      if !ok {
        return OutOfBlocks;
      }
      ghost var fs1, disk1, logged1 := View(ip), OnDisk(), logged;
      WritingInv(sb, old(View(ip)), fs1, own, ip.inum, off, src, |src|);
      WritingAddrsKept(sb, old(View(ip)), fs1, own, ip.inum, off, src);
      if |src| > 0 && off + |src| > ip.d.size {
        ip.d := ip.d.(size := off + |src|);
        Resize(sb, fs1, View(ip), own, ip.inum, ip.d);
        SameRefsOf(fs1, View(ip), ip.inum);
        Iupdate(ip);
        LogsInode(sb, disk1, OnDisk(), logged, ip.inum);
        LogsTwice(sb, old(OnDisk()), disk1, OnDisk(), logged1, logged);
        AddBlocks(logged1, sb.inodestart + ip.inum / IPB, 0);
      }
      WritingDone(sb, old(View(ip)), fs1, View(ip), own, ip.inum, off, src);
      if old(InSync(ip)) {
        WritingStale(sb, old(View(ip)), fs1, View(ip), own, ip.inum, off, src, inodes[ip.inum]);
        assert OnDisk() == Fs(View(ip).bitmap, View(ip).inodes[ip.inum := inodes[ip.inum]], View(ip).data);
      }
      out := Ret(|src|);
    }

    /** The first loop of itrunc: the direct blocks. */
    method FreeAddrs(ip: Inode)
      requires Good(ip)
      modifies this`bitmap, this`own, this`logged, ip`d
      ensures ip.inum < |cached| == |inodes|
      ensures Truncating(sb, old(View(ip)), old(own), View(ip), own, ip.inum, NDIRECT, 0)
      ensures |bitmap| == old(|bitmap|) && BitmapLogs(sb, old(bitmap), old(logged), bitmap, logged)
    {
      hide Used, Inv, Ref, Unmark, Truncating, BitmapLogs;
      BitmapLogsSelf(sb, bitmap, logged);
      TruncStart(sb, View(ip), own, ip.inum);
      ghost var fs0 := View(ip);
      var i := 0;
      while i < NDIRECT
        invariant i <= NDIRECT && |ip.d.addrs| == NDIRECT + 1
        invariant ip.inum < |cached| == |inodes| && Truncating(sb, fs0, old(own), View(ip), own, ip.inum, i, 0)
        invariant |bitmap| == old(|bitmap|) && BitmapLogs(sb, old(bitmap), old(logged), bitmap, logged)
      {
        ghost var bm1, logged1 := bitmap, logged;
        ghost var fs := View(ip);
        TruncSizes(sb, fs0, old(own), fs, own, ip.inum, i, 0);
        assert Ref(fs, ip.inum, i) == ip.d.addrs[i] by { AddrRef(fs, ip.inum, i); }
        ghost var b := ip.d.addrs[i];
        if ip.d.addrs[i] != 0 {
          TruncUsed(sb, fs0, old(own), fs, own, ip.inum, i, 0, i);
          Bfree(ip.d.addrs[i]);
          BitmapLogsMore(sb, old(bitmap), old(logged), bm1, logged1, b);
          ip.d := SetAddr(ip.d, i, 0);
        }
        assert View(ip) == if b == 0 then fs
                 else Fs(Unmark(fs.bitmap, b), fs.inodes[ip.inum := SetAddr(fs.inodes[ip.inum], i, 0)], fs.data);
        TruncDirect(sb, fs0, old(own), fs, own, View(ip), ip.inum, i);
        own := if b == 0 then own else own[b := Free];
        i := i + 1;
      }
    }

    /** The second loop of itrunc: the blocks listed in the indirect block. */
    method FreeEntries(ip: Inode, ghost fs0: Fs, ghost own0: seq<Owner>)
      requires ip.inum < |cached| == |inodes| && Truncating(sb, fs0, own0, View(ip), own, ip.inum, NDIRECT, 0)
      requires |ip.d.addrs| == NDIRECT + 1 && 0 < ip.d.addrs[NDIRECT] < |data|
      modifies this`bitmap, this`own, this`logged
      ensures Truncating(sb, fs0, own0, View(ip), own, ip.inum, NDIRECT, REFS)
      ensures |bitmap| == old(|bitmap|) && BitmapLogs(sb, old(bitmap), old(logged), bitmap, logged)
    {
      hide Used, Ref, Unmark, WordAt, Truncating, BitmapLogs;
      BitmapLogsSelf(sb, bitmap, logged);
      TruncEntriesStart(sb, fs0, own0, View(ip), own, ip.inum);
      var a := data[ip.d.addrs[NDIRECT]];
      var j := 0;
      while j < NINDIRECT
        invariant j <= NINDIRECT
        invariant Truncating(sb, fs0, own0, View(ip), own, ip.inum, NDIRECT, NDIRECT + 1 + j)
        invariant |bitmap| == old(|bitmap|) && BitmapLogs(sb, old(bitmap), old(logged), bitmap, logged)
      {
        ghost var bm1, logged1 := bitmap, logged;
        ghost var fs := View(ip);
        var b := WordAt(a, j);
        TruncEntryRef(sb, fs0, own0, fs, own, ip.inum, j, ip.d.addrs[NDIRECT]);
        if b != 0 {
          Bfree(b);
          BitmapLogsMore(sb, old(bitmap), old(logged), bm1, logged1, b);
        }
        TruncEntry(sb, fs0, own0, fs, own, View(ip), ip.inum, NDIRECT + 1 + j);
        own := if b == 0 then own else own[b := Free];
        j := j + 1;
      }
    }

    /** itrunc but for the size: all blocks of the file become free. */
    method FreeAll(ip: Inode)
      requires Good(ip)
      modifies this`bitmap, this`own, this`logged, ip`d
      ensures ip.inum < |cached| == |inodes| && Inv(sb, View(ip), own) && Cleared(sb, old(View(ip)), View(ip), ip.inum)
      ensures AllReleased(old(own), own, ip.inum) && ip.d == old(ip.d).(addrs := ip.d.addrs)
      ensures |bitmap| == old(|bitmap|) && BitmapLogs(sb, old(bitmap), old(logged), bitmap, logged)
    {
      hide Used, Ref, Unmark, AllReleased, Owns, Truncating, Cleared, BitmapLogs;
      ghost var fs0 := View(ip);
      FreeAddrs(ip);
      TruncSizes(sb, fs0, old(own), View(ip), own, ip.inum, NDIRECT, 0);
      if ip.d.addrs[NDIRECT] != 0 {
        var ind := ip.d.addrs[NDIRECT];
        ghost var bm0, logged0 := bitmap, logged;
        FreeEntries(ip, fs0, old(own));
        ghost var fs, logged1 := View(ip), logged;
        TruncSizes(sb, fs0, old(own), fs, own, ip.inum, NDIRECT, REFS);
        BitmapLogsTwice(sb, old(bitmap), old(logged), bm0, logged0, bitmap, logged);
        assert Ref(fs, ip.inum, NDIRECT) == ind by { AddrRef(fs, ip.inum, NDIRECT); }
        TruncUsed(sb, fs0, old(own), fs, own, ip.inum, NDIRECT, REFS, NDIRECT);
        BitmapLogsMore(sb, old(bitmap), old(logged), bitmap, logged, ind);
        Bfree(ind);
        ip.d := SetAddr(ip.d, NDIRECT, 0);
        TruncIndirect(sb, fs0, old(own), fs, own, View(ip), ip.inum, ind);
        own := own[ind := Free];
      } else {
        TruncDirectOnly(sb, fs0, old(own), View(ip), own, ip.inum);
      }
    }

    /** itrunc: the file becomes empty, exactly its blocks become free, and no other file changes. */
    method Itrunc(ip: Inode)
      requires Good(ip)
      modifies this`bitmap, this`inodes, this`own, this`logged, ip`d
      ensures Good(ip) && AllReleased(old(own), own, ip.inum)
      ensures File(ip) == [] && Solid(ip) && Bytes(ip) == Zeros(MAXFILE * BSIZE) && SameLost(old(own), own)
      ensures OthersKept(sb, old(View(ip)), View(ip), ip.inum)
      ensures inodes == old(inodes)[ip.inum := ip.d] && ip.d == old(ip.d).(size := 0, addrs := ip.d.addrs)
      ensures Refs(ip) == {} && |FreeBlocks()| == |old(FreeBlocks())| + |old(Refs(ip))|
      ensures Logs(sb, old(OnDisk()), OnDisk(), logged)
      ensures forall b | b in logged ::
                b in old(logged) || b == sb.inodestart + ip.inum / IPB || sb.bmapstart <= b < sb.bmapstart + |bitmap|
    {
      hide Used, Ref, AllReleased, SameLost, AllBytes, Owns, Contents, NoHole, OthersKept, Logs, FreeSet, RefsOf,
           Cleared;
      ghost var fs0 := View(ip);
      FreeAll(ip);
      ghost var fs1, logged1 := View(ip), logged;
      ip.d := ip.d.(size := 0);
      TruncContents(sb, fs0, fs1, View(ip), own, ip.inum);
      TruncGives(sb, fs0, old(own), View(ip), own, ip.inum);
      ReleasedLost(old(own), own, ip.inum);
      Iupdate(ip);
      BitmapLogsAll(sb, old(OnDisk()), old(logged), OnDisk(), logged1, ip.inum);
      Bounds(sb, View(ip), own, ip.inum);
    }
  }
}
