/** The file system as a value, and what the code does to it: any series of writes, reads and truncations, and of inodes
    dropped from memory, is told beforehand from the files. */
module FsRun {
  import opened Blocks
  import opened Bitmap
  import opened FsModel
  import opened FileOps
  import opened DiskLayout
  import Mkfs

  /** The files as they are in memory, how many blocks are free, and how many are lost. */
  datatype Plain = Plain(files: seq<File>, free: nat, lost: nat)

  datatype Op =
    | Write(inum: nat, off: nat, src: seq<Byte>)
    | Read(inum: nat, off: nat, n: nat)
    | Truncate(inum: nat)
    | Forget(inum: nat)       // the inode leaves the inode cache
    | Restart                 // all of them do

  /** The operation can be asked for: the inode exists, and offset and length are 32-bit numbers. */
  predicate Callable(op: Op, ninodes: nat) {
    match op
    case Write(i, off, src) => i < ninodes && off < WORD_LIMIT && |src| < WORD_LIMIT
    case Read(i, off, n) => i < ninodes && off < WORD_LIMIT && n < WORD_LIMIT
    case Truncate(i) => i < ninodes
    case Forget(i) => i < ninodes
    case Restart => true
  }

  predicate AllCallable(ops: seq<Op>, ninodes: nat) {
    forall k | 0 <= k < |ops| :: Callable(ops[k], ninodes)
  }

  // ---- what the operations do ---------------------------------------------------------------------------

  /** A write that is not refused. */
  predicate Writes(f: File, off: nat, n: nat) {
    f.typ != T_DEV && off <= f.size && off + n <= MAXFILE * BSIZE
  }

  /** A read that is not refused. */
  predicate Reads(f: File, off: nat, n: nat) {
    f.typ != T_DEV && off <= f.size && off <= (off + n) % WORD_LIMIT
  }

  /** The references that an operation needs to be there. */
  function Wanted(f: File, op: Op): set<nat> {
    match op
    case Write(_, off, src) => if Writes(f, off, |src|) then Needed(off, |src|) else {}
    case Read(_, off, n) => if Reads(f, off, n) then Needed(off, Last(f.size, off, n) - off) else {}
    case Truncate(_) => {}
    case Forget(_) => {}
    case Restart => {}
  }

  /** There are enough free blocks for it. */
  predicate Fits(p: Plain, op: Op)
    requires Callable(op, |p.files|)
  {
    op.Restart? || |Wanted(p.files[op.inum], op) - p.files[op.inum].refs| <= p.free
  }

  /** The file with src at off.  A write that makes it longer updates the disk's copy of the inode, another one does
      not. */
  function Written(f: File, off: nat, src: seq<Byte>): File
    requires off + |src| <= |f.bytes|
  {
    var refs := f.refs + Needed(off, |src|);
    if off + |src| > f.size then File(f.typ, off + |src|, Patch(f.bytes, off, src), refs, AddrsOf(refs))
    else File(f.typ, f.size, Patch(f.bytes, off, src), refs, f.saved)
  }

  function Emptied(f: File): File {
    File(f.typ, 0, Zeros(MAXFILE * BSIZE), {}, {})
  }

  /** One inode leaves the cache. */
  function Evicted(p: Plain, i: nat): Plain
    requires i < |p.files|
  {
    var f := p.files[i];
    Plain(p.files[i := Forgotten(f)], p.free, p.lost + |f.refs - Forgotten(f).refs|)
  }

  function EvictedAll(p: Plain, n: nat): (r: Plain)
    requires n <= |p.files|
    ensures |r.files| == |p.files|
  {
    if n == 0 then p else Evicted(EvictedAll(p, n - 1), n - 1)
  }

  /** What a restart leaves. */
  function Restarted(p: Plain): Plain { EvictedAll(p, |p.files|) }

  /** Enough bytes to each file for the operations to make sense. */
  predicate Sized(p: Plain) {
    forall i: nat | i < |p.files| :: |p.files[i].bytes| == MAXFILE * BSIZE
  }

  function Apply(p: Plain, op: Op): (r: Plain)
    requires Callable(op, |p.files|) && Fits(p, op) && Sized(p)
    ensures |r.files| == |p.files|
  {
    if op.Restart? then Restarted(p)
    else if op.Forget? then Evicted(p, op.inum)
    else
      var f := p.files[op.inum];
      if op.Truncate? then Plain(p.files[op.inum := Emptied(f)], p.free + |f.refs|, p.lost)
      else
        var g := if op.Read? then f.(refs := f.refs + Wanted(f, op))
                 else if Writes(f, op.off, |op.src|) then Written(f, op.off, op.src) else f;
        Plain(p.files[op.inum := g], p.free - |Wanted(f, op) - f.refs|, p.lost)
  }

  lemma ApplySized(p: Plain, op: Op)
    requires Callable(op, |p.files|) && Fits(p, op) && Sized(p)
    ensures Sized(Apply(p, op))
  {
    hide Needed;
    if op.Restart? {
      EvictedSized(p, |p.files|);
    }
  }

  lemma {:induction false} EvictedSized(p: Plain, n: nat)
    requires n <= |p.files| && Sized(p)
    ensures Sized(EvictedAll(p, n))
  {
    if n > 0 {
      EvictedSized(p, n - 1);
    }
  }

  /** A series of operations goes through if there are always enough free blocks. */
  predicate AllFit(p: Plain, ops: seq<Op>)
    requires AllCallable(ops, |p.files|) && Sized(p)
    decreases |ops|
  {
    |ops| == 0 || (Fits(p, ops[0]) && (ApplySized(p, ops[0]); AllFit(Apply(p, ops[0]), ops[1..])))
  }

  function ApplyAll(p: Plain, ops: seq<Op>): (r: Plain)
    requires AllCallable(ops, |p.files|) && Sized(p) && AllFit(p, ops)
    ensures |r.files| == |p.files| && Sized(r)
    decreases |ops|
  {
    if |ops| == 0 then p else ApplySized(p, ops[0]); ApplyAll(Apply(p, ops[0]), ops[1..])
  }

  // ---- that the code does it ------------------------------------------------------------------------------

  /** Memory holds these files, and the disk these copies of the inodes. */
  ghost predicate Holds(sb: Super, fs: Fs, disk: seq<Dinode>, own: seq<Owner>, p: Plain) {
    && Inv(sb, fs, own) && |fs.inodes| == |disk| == |p.files|
    && (forall i: nat | i < |disk| :: Behind(disk[i], fs.inodes[i]) && FileAt(fs, i, disk[i]) == p.files[i])
    && |FreeSet(sb, fs.bitmap)| == p.free && |LostSet(own)| == p.lost
  }

  ghost predicate Shows(disk: FsDisk, p: Plain)
    reads disk
  {
    Holds(disk.sb, Fs(disk.bitmap, disk.cached, disk.data), disk.inodes, disk.own, p)
  }

  lemma HoldsAt(sb: Super, fs: Fs, disk: seq<Dinode>, own: seq<Owner>, p: Plain, i: nat)
    requires Holds(sb, fs, disk, own, p) && i < |p.files|
    ensures Inv(sb, fs, own) && |fs.inodes| == |disk| == |p.files| && Behind(disk[i], fs.inodes[i])
    ensures FileAt(fs, i, disk[i]) == p.files[i] && |FreeSet(sb, fs.bitmap)| == p.free
  {
    hide Ref, Used, Owns, FreeSet, AllBytes, RefsOf, SavedOf, LostSet;
  }

  /** One inode has changed, in memory and perhaps on the disk. */
  lemma FileChanged(sb: Super, fs1: Fs, fs2: Fs, disk1: seq<Dinode>, disk2: seq<Dinode>, files: seq<File>, i: nat)
    requires Wf(sb, fs1) && Wf(sb, fs2) && i < |fs1.inodes| == |files| == |disk1| && OthersKept(sb, fs1, fs2, i)
    requires forall j: nat | j < |files| :: Behind(disk1[j], fs1.inodes[j]) && FileAt(fs1, j, disk1[j]) == files[j]
    requires |disk2| == |disk1| && disk2 == disk1[i := disk2[i]] && Behind(disk2[i], fs2.inodes[i])
    ensures |fs2.inodes| == |files|
    ensures forall j: nat | j < |files| ::
              Behind(disk2[j], fs2.inodes[j]) && FileAt(fs2, j, disk2[j]) == files[i := FileAt(fs2, i, disk2[i])][j]
  {
    hide Ref, Contents, NoHole, RefsKept, AllBytes, RefsOf, SavedOf;
    forall j: nat | j < |files| && j != i
      ensures Behind(disk2[j], fs2.inodes[j]) && FileAt(fs2, j, disk2[j]) == files[j]
    {
      SameRefsOf(fs1, fs2, j);
    }
  }

  lemma SameLostSet(own1: seq<Owner>, own2: seq<Owner>)
    requires SameLost(own1, own2)
    ensures LostSet(own1) == LostSet(own2)
  {
  }

  lemma BehindSelf(d: Dinode)
    requires |d.addrs| == NDIRECT + 1
    ensures Behind(d, d)
  {
  }

  /** Behind stays so when the inode in memory gets more addresses. */
  lemma BehindMore(d: Dinode, m1: Dinode, m2: Dinode)
    requires Behind(d, m1) && |m2.addrs| == NDIRECT + 1 && m2 == m1.(addrs := m2.addrs)
    requires forall k: nat | k <= NDIRECT :: m1.addrs[k] != 0 ==> m2.addrs[k] == m1.addrs[k]
    ensures Behind(d, m2)
  {
  }

  /** What changed on the disk has been logged, and of the inodes only sizes and addresses have. */
  ghost predicate Recorded(sb: Super, fs1: Fs, fs2: Fs, logged: set<nat>) {
    KindsKept(fs1, fs2) && Logs(sb, fs1, fs2, logged)
  }

  lemma KindsChanged(disk1: Fs, disk2: Fs, i: nat)
    requires i < |disk1.inodes| == |disk2.inodes| && disk2.inodes == disk1.inodes[i := disk2.inodes[i]]
    requires disk2.inodes[i] == disk1.inodes[i].(size := disk2.inodes[i].size, addrs := disk2.inodes[i].addrs)
    ensures KindsKept(disk1, disk2)
  {
  }

  // ---- the steps of the code that other processes can come between ------------------------------------------

  /** A round of the loop of writei, a round of that of readi, the end of a writei that makes the file longer, itrunc,
      and an inode leaving the cache. */
  datatype Act =
    | Round(inum: nat, pos: nat, part: seq<Byte>)
    | Touch(inum: nat, pos: nat)
    | Grow(inum: nat, size: nat)
    | Cut(inum: nat)
    | Drop(inum: nat)

  predicate Doable(p: Plain, a: Act) {
    && a.inum < |p.files| && |p.files[a.inum].bytes| == MAXFILE * BSIZE
    && match a
       case Round(_, pos, part) => 0 < |part| && pos % BSIZE + |part| <= BSIZE && pos + |part| <= MAXFILE * BSIZE
       case Touch(i, pos) => pos < p.files[i].size
       case Grow(_, size) => size <= MAXFILE * BSIZE
       case Cut(_) => true
       case Drop(_) => true
  }

  function Want(a: Act): set<nat> {
    match a
    case Round(_, pos, part) => Needed(pos, |part|)
    case Touch(_, pos) => Needed(pos, 1)
    case Grow(_, _) => {}
    case Cut(_) => {}
    case Drop(_) => {}
  }

  predicate Room(p: Plain, a: Act)
    requires a.inum < |p.files|
  {
    |Want(a) - p.files[a.inum].refs| <= p.free
  }

  function Do(p: Plain, a: Act): (r: Plain)
    requires Doable(p, a) && Room(p, a)
    ensures |r.files| == |p.files|
  {
    var f := p.files[a.inum];
    match a
    case Round(i, pos, part) =>
      Plain(p.files[i := f.(bytes := Patch(f.bytes, pos, part), refs := f.refs + Want(a))],
        p.free - |Want(a) - f.refs|, p.lost)
    case Touch(i, _) => Plain(p.files[i := f.(refs := f.refs + Want(a))], p.free - |Want(a) - f.refs|, p.lost)
    case Grow(i, size) => Plain(p.files[i := f.(size := size, saved := AddrsOf(f.refs))], p.free, p.lost)
    case Cut(i) => Plain(p.files[i := Emptied(f)], p.free + |f.refs|, p.lost)
    case Drop(i) => Evicted(p, i)
  }

  /** Bound on the blocks that one step logs. */
  function Price(a: Act, nbitmap: nat): nat {
    match a
    case Round(_, _, _) => 4
    case Touch(_, _) => 4
    case Grow(_, _) => 1
    case Cut(_) => nbitmap + 1
    case Drop(_) => 0
  }

  lemma OneBlock(pos: nat, n: nat)
    requires 0 < n && pos % BSIZE + n <= BSIZE
    ensures Cost(pos, n, true) <= 2 && Cost(pos, n, false) <= 2
  {
  }

  lemma KindsSame(disk1: Fs, disk2: Fs)
    requires disk1.inodes == disk2.inodes
    ensures KindsKept(disk1, disk2)
  {
  }

  /** The end of a step that has given file i more references, or src at off. */
  lemma MoreRefs(sb: Super, fs1: Fs, fs2: Fs, disk: seq<Dinode>, files: seq<File>, i: nat, g: File)
    requires Wf(sb, fs1) && Wf(sb, fs2) && i < |fs1.inodes| == |files| == |disk| && OthersKept(sb, fs1, fs2, i)
    requires forall j: nat | j < |files| :: Behind(disk[j], fs1.inodes[j]) && FileAt(fs1, j, disk[j]) == files[j]
    requires Grown(sb, fs1, fs2, i) && g == files[i].(bytes := AllBytes(fs2, i), refs := RefsOf(fs2, i))
    ensures |fs2.inodes| == |files|
    ensures forall j: nat | j < |files| :: Behind(disk[j], fs2.inodes[j]) && FileAt(fs2, j, disk[j]) == files[i := g][j]
  {
    hide Ref, Contents, NoHole, RefsKept, AllBytes, RefsOf, SavedOf, OthersKept;
    GrownAddrs(sb, fs1, fs2, i);
    assert Behind(disk[i], fs1.inodes[i]) && FileAt(fs1, i, disk[i]) == files[i];
    BehindMore(disk[i], fs1.inodes[i], fs2.inodes[i]);
    FileChanged(sb, fs1, fs2, disk, disk, files, i);
  }

  method RoundStep(disk: FsDisk, a: Act, ghost p: Plain) returns (ok: bool)
    requires Shows(disk, p) && Doable(p, a) && a.Round?
    modifies disk
    ensures ok <==> Room(p, a)
    ensures ok ==> Shows(disk, Do(p, a))
    ensures ok ==> Recorded(disk.sb, old(disk.OnDisk()), disk.OnDisk(), disk.logged)
    ensures ok ==> |disk.logged| <= Price(a, |disk.bitmap|)
  {
    hide Ref, Used, Owns, Contents, NoHole, Logs, AddrsReady, OthersKept, Needed, RefsOf, FreeSet, AllBytes, SavedOf,
         LostSet, KindsKept, Writing, SameLost, Patch, Cost, Grown;
    disk.BeginOp();
    ghost var fs, copies, own := Fs(disk.bitmap, disk.cached, disk.data), disk.inodes, disk.own;
    Bounds(disk.sb, fs, disk.own, a.inum);
    var ip := new Inode(a.inum, disk.cached[a.inum]);
    assert disk.cached[a.inum := ip.d] == disk.cached;
    assert FileAt(fs, a.inum, copies[a.inum]) == p.files[a.inum] && Behind(copies[a.inum], fs.inodes[a.inum]);
    ok := disk.WriteBlocks(ip, a.part, a.pos);
    if !ok {
      return;
    }
    ghost var fs2 := disk.View(ip);
    disk.cached := disk.cached[a.inum := ip.d];
    WritingKeeps(disk.sb, fs, fs2, disk.own, a.inum, a.pos, a.part);
    MoreRefs(disk.sb, fs, fs2, copies, p.files, a.inum, Do(p, a).files[a.inum]);
    SameLostSet(own, disk.own);
    OneBlock(a.pos, |a.part|);
    KindsSame(old(disk.OnDisk()), disk.OnDisk());
  }

  method TouchStep(disk: FsDisk, a: Act, ghost p: Plain) returns (ok: bool)
    requires Shows(disk, p) && Doable(p, a) && a.Touch?
    modifies disk
    ensures ok <==> Room(p, a)
    ensures ok ==> Shows(disk, Do(p, a))
    ensures ok ==> Recorded(disk.sb, old(disk.OnDisk()), disk.OnDisk(), disk.logged)
    ensures ok ==> |disk.logged| <= Price(a, |disk.bitmap|)
  {
    hide Ref, Used, Owns, Contents, NoHole, Logs, AddrsReady, OthersKept, Needed, RefsOf, FreeSet, AllBytes, SavedOf,
         LostSet, KindsKept, Extended, SameLost, Patch, Grown;
    disk.BeginOp();
    ghost var fs, copies, own := Fs(disk.bitmap, disk.cached, disk.data), disk.inodes, disk.own;
    Bounds(disk.sb, fs, disk.own, a.inum);
    var ip := new Inode(a.inum, disk.cached[a.inum]);
    assert disk.cached[a.inum := ip.d] == disk.cached;
    assert FileAt(fs, a.inum, copies[a.inum]) == p.files[a.inum];
    var dst;
    ok, dst := disk.ReadBlocks(ip, a.pos, a.pos + 1);
    if !ok {
      return;
    }
    ghost var fs2 := disk.View(ip);
    disk.cached := disk.cached[a.inum := ip.d];
    ExtendedKeeps(disk.sb, fs, own, fs2, disk.own, a.inum);
    MoreRefs(disk.sb, fs, fs2, copies, p.files, a.inum, Do(p, a).files[a.inum]);
    SameLostSet(own, disk.own);
    KindsSame(old(disk.OnDisk()), disk.OnDisk());
  }

  lemma Resized(sb: Super, fs1: Fs, own: seq<Owner>, fs2: Fs, i: nat, size: nat)
    requires Inv(sb, fs1, own) && i < |fs1.inodes| && size <= MAXFILE * BSIZE
    requires fs2 == Fs(fs1.bitmap, fs1.inodes[i := fs1.inodes[i].(size := size)], fs1.data)
    ensures Inv(sb, fs2, own) && OthersKept(sb, fs1, fs2, i) && AllBytes(fs2, i) == AllBytes(fs1, i)
    ensures RefsOf(fs2, i) == RefsOf(fs1, i) && SavedOf(fs2.inodes[i]) == AddrsOf(RefsOf(fs1, i))
  {
    Resize(sb, fs1, fs2, own, i, fs2.inodes[i]);
    hide Owns, Used;
    SavedAll(fs2, i);
    hide Ref, ByteAt;
    SameContents(sb, fs1, fs2, i);
    SameRefsOf(fs1, fs2, i);
  }

  /** The end of a writei that has made the file longer: the size, and iupdate. */
  method GrowStep(disk: FsDisk, a: Act, ghost p: Plain)
    requires Shows(disk, p) && Doable(p, a) && a.Grow?
    modifies disk
    ensures Room(p, a) && Shows(disk, Do(p, a))
    ensures Recorded(disk.sb, old(disk.OnDisk()), disk.OnDisk(), disk.logged)
    ensures |disk.logged| <= Price(a, |disk.bitmap|)
  {
    hide Ref, Used, Owns, Contents, NoHole, Logs, OthersKept, RefsOf, FreeSet, AllBytes, SavedOf, LostSet, KindsKept;
    disk.BeginOp();
    ghost var fs, copies, own := Fs(disk.bitmap, disk.cached, disk.data), disk.inodes, disk.own;
    Bounds(disk.sb, fs, disk.own, a.inum);
    var ip := new Inode(a.inum, disk.cached[a.inum]);
    assert Behind(copies[a.inum], fs.inodes[a.inum]) && FileAt(fs, a.inum, copies[a.inum]) == p.files[a.inum];
    ip.d := ip.d.(size := a.size);
    disk.Iupdate(ip);
    disk.cached := disk.cached[a.inum := ip.d];
    ghost var fs2 := Fs(disk.bitmap, disk.cached, disk.data);
    Resized(disk.sb, fs, own, fs2, a.inum, a.size);
    FileChanged(disk.sb, fs, fs2, copies, disk.inodes, p.files, a.inum);
    LogsInode(disk.sb, old(disk.OnDisk()), disk.OnDisk(), disk.logged, a.inum);
    KindsChanged(old(disk.OnDisk()), disk.OnDisk(), a.inum);
  }

  lemma {:induction false} FewBlocks(s: set<nat>, x: nat, lo: nat, n: nat)
    requires forall b | b in s :: b == x || lo <= b < lo + n
    ensures |s| <= n + 1
    decreases n
  {
    if n == 0 {
      SubsetSize(s, {x});
    } else {
      FewBlocks(s - {lo + n - 1}, x, lo, n - 1);
      SubsetSize(s, s - {lo + n - 1} + {lo + n - 1});
    }
  }

  lemma NoneSaved(d: Dinode, refs: set<nat>)
    requires |d.addrs| == NDIRECT + 1 && SavedOf(d) == AddrsOf(refs) && refs == {}
    ensures SavedOf(d) == {}
  {
  }

  method CutStep(disk: FsDisk, a: Act, ghost p: Plain)
    requires Shows(disk, p) && Doable(p, a) && a.Cut?
    modifies disk
    ensures Room(p, a) && Shows(disk, Do(p, a))
    ensures Recorded(disk.sb, old(disk.OnDisk()), disk.OnDisk(), disk.logged)
    ensures |disk.logged| <= Price(a, |disk.bitmap|)
  {
    hide Ref, Used, Owns, Contents, NoHole, Logs, OthersKept, RefsOf, FreeSet, AllBytes, SavedOf, LostSet, KindsKept,
         SameLost, AllReleased;
    disk.BeginOp();
    ghost var fs, copies, own := Fs(disk.bitmap, disk.cached, disk.data), disk.inodes, disk.own;
    Bounds(disk.sb, fs, disk.own, a.inum);
    var ip := new Inode(a.inum, disk.cached[a.inum]);
    assert disk.cached[a.inum := ip.d] == disk.cached;
    assert Behind(copies[a.inum], fs.inodes[a.inum]) && FileAt(fs, a.inum, copies[a.inum]) == p.files[a.inum];
    disk.Itrunc(ip);
    ghost var fs2 := disk.View(ip);
    disk.cached := disk.cached[a.inum := ip.d];
    BehindSelf(ip.d);
    SavedAll(fs2, a.inum);
    NoneSaved(ip.d, RefsOf(fs2, a.inum));
    FileChanged(disk.sb, fs, fs2, copies, disk.inodes, p.files, a.inum);
    SameLostSet(own, disk.own);
    KindsChanged(old(disk.OnDisk()), disk.OnDisk(), a.inum);
    FewBlocks(disk.logged, disk.sb.inodestart + a.inum / IPB, disk.sb.bmapstart, |disk.bitmap|);
  }

  /** An inode leaves the cache: from then on the disk's copy counts. */
  lemma Dropping(sb: Super, fs: Fs, disk: seq<Dinode>, own: seq<Owner>, p: Plain, i: nat)
    returns (fs2: Fs, own2: seq<Owner>)
    requires Holds(sb, fs, disk, own, p) && i < |disk|
    ensures fs2 == Fs(fs.bitmap, fs.inodes[i := disk[i]], fs.data) && Holds(sb, fs2, disk, own2, Evicted(p, i))
  {
    hide Ref, Used, Owns, Contents, NoHole, OthersKept, RefsOf, FreeSet, AllBytes, SavedOf, LostSet, Disown,
         RefsDropped;
    var d := disk[i];
    assert Behind(d, fs.inodes[i]) && FileAt(fs, i, d) == p.files[i];
    fs2 := Fs(fs.bitmap, fs.inodes[i := d], fs.data);
    DropWf(sb, fs, fs2, i, d);
    ForgetDrops(sb, fs, fs2, i, d);
    ForgetOwns(sb, fs, own, fs2, i);
    ForgetLost(sb, fs, own, fs2, i);
    ForgetBytes(sb, fs, fs2, i, d);
    SetParts(RefsOf(fs, i), RefsOf(fs2, i));
    own2 := Disown(sb, fs2, own, i, |own|);
    BehindSelf(d);
    FileChanged(sb, fs, fs2, disk, disk, p.files, i);
  }

  lemma DropWf(sb: Super, fs: Fs, fs2: Fs, i: nat, d: Dinode)
    requires Wf(sb, fs) && i < |fs.inodes| && Behind(d, fs.inodes[i])
    requires fs2 == Fs(fs.bitmap, fs.inodes[i := d], fs.data)
    ensures Wf(sb, fs2)
  {
  }

  method DropStep(disk: FsDisk, a: Act, ghost p: Plain)
    requires Shows(disk, p) && Doable(p, a) && a.Drop?
    modifies disk
    ensures Room(p, a) && Shows(disk, Do(p, a)) && disk.OnDisk() == old(disk.OnDisk()) && disk.logged == {}
    ensures Recorded(disk.sb, old(disk.OnDisk()), disk.OnDisk(), disk.logged)
  {
    hide Holds;
    ghost var fs2, own2 := Dropping(disk.sb, Fs(disk.bitmap, disk.cached, disk.data), disk.inodes, disk.own, p, a.inum)
      by { Sizes(disk, p); }
    Sizes(disk, p);
    disk.BeginOp();
    disk.cached := disk.cached[a.inum := disk.inodes[a.inum]];
    disk.own := own2;
    KindsSame(old(disk.OnDisk()), disk.OnDisk());
  }

  lemma Sizes(disk: FsDisk, p: Plain)
    requires Shows(disk, p)
    ensures |disk.inodes| == |disk.cached| == |p.files|
  {
  }

  /** Any of the steps. */
  method Step(disk: FsDisk, a: Act, ghost p: Plain) returns (ok: bool)
    requires Shows(disk, p) && Doable(p, a)
    modifies disk
    ensures ok <==> Room(p, a)
    ensures ok ==> Shows(disk, Do(p, a))
    ensures ok ==> Recorded(disk.sb, old(disk.OnDisk()), disk.OnDisk(), disk.logged)
    ensures ok ==> |disk.logged| <= Price(a, |disk.bitmap|)
  {
    hide Shows, Recorded;
    match a {
      case Round(_, _, _) => ok := RoundStep(disk, a, p);
      case Touch(_, _) => ok := TouchStep(disk, a, p);
      case Grow(_, _) =>
        GrowStep(disk, a, p);
        ok := true;
      case Cut(_) =>
        CutStep(disk, a, p);
        ok := true;
      case Drop(_) =>
        DropStep(disk, a, p);
        ok := true;
    }
  }

  // ---- whole operations -------------------------------------------------------------------------------------

  /** writei, on the inode in the cache. */
  method WriteOp(disk: FsDisk, op: Op, ghost p: Plain) returns (ok: bool)
    requires Shows(disk, p) && Sized(p) && Callable(op, |p.files|) && op.Write?
    modifies disk
    ensures ok <==> Fits(p, op)
    ensures ok ==> Shows(disk, Apply(p, op))
    ensures ok ==> Recorded(disk.sb, old(disk.OnDisk()), disk.OnDisk(), disk.logged)
    ensures ok ==> |disk.logged| <= Cost(op.off, |op.src|, Whole(p.files[op.inum])) + 3
  {
    hide Holds, Ref, Used, Owns, Contents, NoHole, Logs, AddrsReady, OthersKept, Needed, RefsOf, FreeSet, AllBytes,
         SavedOf,
         LostSet, KindsKept, SameLost, Patch, Cost, Owned, Apply, Fits;
    disk.BeginOp();
    ghost var fs, copies, own := Fs(disk.bitmap, disk.cached, disk.data), disk.inodes, disk.own;
    HoldsAt(disk.sb, fs, copies, own, p, op.inum);
    Bounds(disk.sb, fs, disk.own, op.inum);
    WholeNoHole(disk.sb, fs, disk.own, op.inum);
    var ip := new Inode(op.inum, disk.cached[op.inum]);
    assert disk.cached[op.inum := ip.d] == disk.cached;
    var r := disk.Writei(ip, op.src, op.off, {});
    if r == Ret(-1) {
      KindsSame(old(disk.OnDisk()), disk.OnDisk());
      NothingWanted(p, op);
      return true;
    }
    if r.OutOfBlocks? {
      ApplyWrite(p, op);
      return false;
    }
    ghost var fs2 := disk.View(ip);
    disk.cached := disk.cached[op.inum := ip.d];
    WriteHolds(disk.sb, fs, copies, own, fs2, disk.inodes, disk.own, p, op);
    KindsChanged(old(disk.OnDisk()), disk.OnDisk(), op.inum);
    ok := true;
  }

  /** The end of writei, as far as the files go. */
  lemma WriteHolds(sb: Super, fs: Fs, disk: seq<Dinode>, own: seq<Owner>, fs2: Fs, disk2: seq<Dinode>, own2: seq<Owner>,
                   p: Plain, op: Op)
    requires Holds(sb, fs, disk, own, p) && Inv(sb, fs2, own2) && SameLost(own, own2)
    requires Sized(p) && Callable(op, |p.files|) && op.Write? && Writes(p.files[op.inum], op.off, |op.src|)
    requires |fs2.inodes| == |fs.inodes| && OthersKept(sb, fs, fs2, op.inum)
    requires var m1, m2, grew := fs.inodes[op.inum], fs2.inodes[op.inum], op.off + |op.src| > fs.inodes[op.inum].size;
             && m2 == m1.(size := if grew then op.off + |op.src| else m1.size, addrs := m2.addrs)
             && (forall k: nat | k <= NDIRECT :: m1.addrs[k] != 0 ==> m2.addrs[k] == m1.addrs[k])
             && disk2 == if grew then disk[op.inum := m2] else disk
    requires AllBytes(fs2, op.inum) == Patch(AllBytes(fs, op.inum), op.off, op.src)
    requires RefsOf(fs2, op.inum) == RefsOf(fs, op.inum) + Needed(op.off, |op.src|)
    requires |FreeSet(sb, fs2.bitmap)| == |FreeSet(sb, fs.bitmap)| - |Needed(op.off, |op.src|) - RefsOf(fs, op.inum)|
    ensures Fits(p, op) && Holds(sb, fs2, disk2, own2, Apply(p, op))
  {
    hide Ref, Used, Owns, Contents, NoHole, OthersKept, Needed, RefsOf, FreeSet, AllBytes, SavedOf, LostSet, SameLost,
         Patch,
         Apply, Fits, AddrsOf;
    var i := op.inum;
    ApplyWrite(p, op);
    assert Behind(disk[i], fs.inodes[i]) && FileAt(fs, i, disk[i]) == p.files[i];
    SavedAll(fs2, i);
    BehindSelf(fs2.inodes[i]);
    if !(op.off + |op.src| > fs.inodes[i].size) {
      BehindMore(disk[i], fs.inodes[i], fs2.inodes[i]);
    }
    FileChanged(sb, fs, fs2, disk, disk2, p.files, i);
    SameLostSet(own, own2);
  }

  lemma NothingWanted(p: Plain, op: Op)
    requires Callable(op, |p.files|) && Sized(p) && !op.Restart? && !op.Forget? && !op.Truncate?
    requires op.Write? ==> !Writes(p.files[op.inum], op.off, |op.src|)
    requires op.Read? ==> !Reads(p.files[op.inum], op.off, op.n)
    ensures Fits(p, op) && Apply(p, op) == p
  {
    var f := p.files[op.inum];
    assert {} - f.refs == {} && f.refs + {} == f.refs;
    assert f.(refs := f.refs) == f;
    assert p.files[op.inum := f] == p.files;
  }

  lemma ApplyRead(p: Plain, op: Op)
    requires Callable(op, |p.files|) && Sized(p) && op.Read? && Reads(p.files[op.inum], op.off, op.n)
    ensures var f := p.files[op.inum];
            var need := Needed(op.off, Last(f.size, op.off, op.n) - op.off);
            && (Fits(p, op) <==> |need - f.refs| <= p.free)
            && (Fits(p, op) ==>
                  Apply(p, op)
                    == Plain(p.files[op.inum := f.(refs := f.refs + need)], p.free - |need - f.refs|, p.lost))
  {
  }

  lemma ApplyWrite(p: Plain, op: Op)
    requires Callable(op, |p.files|) && Sized(p) && op.Write? && Writes(p.files[op.inum], op.off, |op.src|)
    ensures var f := p.files[op.inum];
            var need := Needed(op.off, |op.src|);
            && (Fits(p, op) <==> |need - f.refs| <= p.free)
            && (Fits(p, op) ==>
                  Apply(p, op) ==
                  Plain(p.files[op.inum := Written(f, op.off, op.src)], p.free - |need - f.refs|, p.lost))
  {
  }

  /** What a read of n bytes at off gives: the bytes of the file from there on, n of them or all up to its end; and none
      outside the limits. */
  ghost predicate ReadOut(f: File, off: nat, n: nat, dst: seq<Byte>) {
    if Reads(f, off, n) then
      && |dst| <= n && off + |dst| <= f.size && (|dst| == n || off + |dst| == f.size)
      && f.size <= |f.bytes| && dst == f.bytes[off..off + |dst|]
    else dst == []
  }

  lemma ReadOutIs(f: File, off: nat, n: nat, dst: seq<Byte>)
    requires f.size <= |f.bytes| && |dst| <= n && off + |dst| <= f.size && (|dst| == n || off + |dst| == f.size)
    requires Reads(f, off, n) && dst == f.bytes[..f.size][off..off + |dst|]
    ensures ReadOut(f, off, n, dst)
  {
  }

  lemma NoReadOut(f: File, off: nat, n: nat)
    requires !Reads(f, off, n)
    ensures ReadOut(f, off, n, [])
  {
  }

  /** readi, likewise. */
  method ReadOp(disk: FsDisk, op: Op, ghost p: Plain) returns (ok: bool, dst: seq<Byte>)
    requires Shows(disk, p) && Sized(p) && Callable(op, |p.files|) && op.Read?
    modifies disk
    ensures ok <==> Fits(p, op)
    ensures ok ==> Shows(disk, Apply(p, op))
    ensures ok ==> Recorded(disk.sb, old(disk.OnDisk()), disk.OnDisk(), disk.logged)
    ensures ok ==> ReadOut(p.files[op.inum], op.off, op.n, dst)
  {
    hide Holds, Ref, Used, Owns, Contents, NoHole, Logs, AddrsReady, OthersKept, Needed, RefsOf, FreeSet, AllBytes,
         SavedOf,
         LostSet, KindsKept, Extended, SameLost, Span, Owned, Grown, Apply, Fits, ReadOut;
    disk.BeginOp();
    ghost var fs, copies, own := Fs(disk.bitmap, disk.cached, disk.data), disk.inodes, disk.own;
    HoldsAt(disk.sb, fs, copies, own, p, op.inum);
    Bounds(disk.sb, fs, disk.own, op.inum);
    ghost var f := p.files[op.inum];
    ContentsFirst(disk.sb, fs, own, op.inum);
    hide Last;
    var ip := new Inode(op.inum, disk.cached[op.inum]);
    assert disk.cached[op.inum := ip.d] == disk.cached;
    assert disk.View(ip) == fs && disk.Refs(ip) == f.refs && disk.File(ip) == f.bytes[..f.size];
    ghost var refs := disk.Refs(ip);
    assert Reads(f, op.off, op.n) ==>
        disk.Missing(ip, op.off, op.n) == Needed(op.off, Last(f.size, op.off, op.n) - op.off) - refs;
    assert Reads(f, op.off, op.n) <==> ip.d.typ != T_DEV && disk.InRange(ip, op.off, op.n);
    hide Reads;
    var r;
    r, dst := disk.Readi(ip, op.off, op.n, {});
    if r == Ret(-1) {
      KindsSame(old(disk.OnDisk()), disk.OnDisk());
      NothingWanted(p, op);
      NoReadOut(f, op.off, op.n);
      return true, [];
    }
    if r.OutOfBlocks? {
      ApplyRead(p, op);
      return false, [];
    }
    ReadOutIs(f, op.off, op.n, dst);
    ghost var fs2 := disk.View(ip);
    disk.cached := disk.cached[op.inum := ip.d];
    ReadHolds(disk.sb, fs, copies, own, fs2, disk.own, p, op);
    KindsSame(old(disk.OnDisk()), disk.OnDisk());
    ok := true;
  }

  /** The end of readi, likewise. */
  lemma ReadHolds(sb: Super, fs: Fs, disk: seq<Dinode>, own: seq<Owner>, fs2: Fs, own2: seq<Owner>, p: Plain, op: Op)
    requires Holds(sb, fs, disk, own, p) && Sized(p) && Callable(op, |p.files|) && op.Read?
    requires Reads(p.files[op.inum], op.off, op.n) && Extended(sb, fs, own, fs2, own2, op.inum)
    requires var need := Needed(op.off, Last(p.files[op.inum].size, op.off, op.n) - op.off);
             && RefsOf(fs2, op.inum) == RefsOf(fs, op.inum) + need
             && |FreeSet(sb, fs2.bitmap)| == |FreeSet(sb, fs.bitmap)| - |need - RefsOf(fs, op.inum)|
    ensures Fits(p, op) && Holds(sb, fs2, disk, own2, Apply(p, op))
  {
    hide Ref, Used, Owns, Contents, NoHole, OthersKept, Needed, RefsOf, FreeSet, AllBytes, SavedOf, LostSet, SameLost,
         Extended, Grown, Apply, Fits;
    ApplyRead(p, op);
    assert FileAt(fs, op.inum, disk[op.inum]) == p.files[op.inum];
    ExtendedKeeps(sb, fs, own, fs2, own2, op.inum);
    MoreRefs(sb, fs, fs2, disk, p.files, op.inum, Apply(p, op).files[op.inum]);
    SameLostSet(own, own2);
  }

  /** All inodes leave the cache. */
  lemma {:induction false} Restarting(sb: Super, fs: Fs, disk: seq<Dinode>, own: seq<Owner>, p: Plain, n: nat)
    returns (fs2: Fs, own2: seq<Owner>)
    requires Holds(sb, fs, disk, own, p) && n <= |disk|
    ensures |fs.inodes| == |disk| && fs2 == Fs(fs.bitmap, disk[..n] + fs.inodes[n..], fs.data)
    ensures n <= |p.files| && Holds(sb, fs2, disk, own2, EvictedAll(p, n))
  {
    hide Inv, FileAt, Behind, FreeSet, LostSet, Evicted;
    if n == 0 {
      fs2, own2 := fs, own;
      assert disk[..0] + fs.inodes[0..] == fs.inodes;
    } else {
      var fs1, own1 := Restarting(sb, fs, disk, own, p, n - 1);
      fs2, own2 := Dropping(sb, fs1, disk, own1, EvictedAll(p, n - 1), n - 1);
      assert fs1.inodes[n - 1 := disk[n - 1]] == disk[..n] + fs.inodes[n..];
    }
  }

  method RestartOp(disk: FsDisk, ghost p: Plain)
    requires Shows(disk, p)
    modifies disk
    ensures Shows(disk, Restarted(p)) && disk.OnDisk() == old(disk.OnDisk()) && disk.cached == disk.inodes
  {
    hide Inv, FileAt, Behind, FreeSet, LostSet, EvictedAll;
    ghost var fs := Fs(disk.bitmap, disk.cached, disk.data);
    ghost var fs2, own2 := Restarting(disk.sb, fs, disk.inodes, disk.own, p, |disk.inodes|);
    assert disk.inodes[..|disk.inodes|] + disk.cached[|disk.inodes|..] == disk.inodes;
    disk.cached := disk.inodes;
    disk.own := own2;
  }

  /** One operation. */
  method Perform(disk: FsDisk, op: Op, ghost p: Plain) returns (ok: bool)
    requires Shows(disk, p) && Sized(p) && Callable(op, |p.files|)
    modifies disk
    ensures ok <==> Fits(p, op)
    ensures ok ==> Shows(disk, Apply(p, op))
  {
    hide Shows, Recorded, EvictedAll, Emptied, Evicted;
    match op {
      case Write(_, _, _) => ok := WriteOp(disk, op, p);
      case Read(_, _, _) =>
        var dst;
        ok, dst := ReadOp(disk, op, p);
      case Truncate(i) =>
        CutStep(disk, Cut(i), p);
        ok := true;
      case Forget(i) =>
        DropStep(disk, Drop(i), p);
        ok := true;
      case Restart =>
        RestartOp(disk, p);
        ok := true;
    }
  }

  /** A series of operations, which ends early only when an operation finds too few free blocks. */
  method Run(disk: FsDisk, ops: seq<Op>, ghost p: Plain) returns (ok: bool)
    requires Shows(disk, p) && Sized(p) && AllCallable(ops, |p.files|)
    modifies disk
    ensures ok <==> AllFit(p, ops)
    ensures ok ==> Shows(disk, ApplyAll(p, ops))
  {
    hide Shows, Fits, Apply, Sized;
    ghost var q := p;
    var k := 0;
    while k < |ops|
      invariant k <= |ops| && |q.files| == |p.files| && Shows(disk, q) && Sized(q)
      invariant AllCallable(ops[k..], |q.files|) && (AllFit(q, ops[k..]) <==> AllFit(p, ops))
      invariant AllFit(p, ops) ==> ApplyAll(q, ops[k..]) == ApplyAll(p, ops)
    {
      ok := Perform(disk, ops[k], q);
      assert ops[k..][1..] == ops[k + 1..];
      if !ok {
        return;
      }
      ApplySized(q, ops[k]);
      q := Apply(q, ops[k]);
      k := k + 1;
    }
    ok := true;
  }

  /** The disk by itself: it has what a restart would leave, and block ownership exactly if that loses nothing. */
  lemma DiskHas(sb: Super, fs: Fs, disk: seq<Dinode>, own: seq<Owner>, p: Plain) returns (own2: seq<Owner>)
    requires Holds(sb, fs, disk, own, p)
    ensures Holds(sb, Fs(fs.bitmap, disk, fs.data), disk, own2, Restarted(p))
    ensures Owned(sb, Fs(fs.bitmap, disk, fs.data)) <==> Restarted(p).lost == 0
  {
    hide Inv, FileAt, Behind, FreeSet, LostSet, EvictedAll, Owned;
    var fs2;
    fs2, own2 := Restarting(sb, fs, disk, own, p, |disk|);
    assert disk[..|disk|] + fs.inodes[|disk|..] == disk;
    OwnedIs(sb, fs2, own2);
  }

  lemma OwnedExactly(disk: FsDisk, p: Plain)
    requires Shows(disk, p)
    ensures Owned(disk.sb, disk.OnDisk()) <==> Restarted(p).lost == 0
  {
    hide Holds, EvictedAll, Owned;
    var own2 := DiskHas(disk.sb, Fs(disk.bitmap, disk.cached, disk.data), disk.inodes, disk.own, p);
  }

  // ---- from an image of mkfs --------------------------------------------------------------------------------

  /** The file system that mkfs makes of the files. */
  function Image(names: seq<seq<Byte>>, files: seq<seq<Byte>>): (p: Plain)
    requires |names| == |files| <= Mkfs.NINODES - 2 && Mkfs.Fit(files)
    ensures |p.files| == Mkfs.NINODEBLOCKS * 8 && p.lost == 0
    ensures forall i: nat | i < |p.files| :: p.files[i] == Mkfs.Start(names, files, i)
  {
    Plain(Inodes(names, files, Mkfs.NINODEBLOCKS * 8), Mkfs.FSSIZE - Mkfs.Total(files), 0)
  }

  function Inodes(names: seq<seq<Byte>>, files: seq<seq<Byte>>, n: nat): (r: seq<File>)
    requires |names| == |files| <= Mkfs.NINODES - 2 && forall j | 0 <= j < |files| :: |files[j]| <= MAXFILE * BSIZE
    ensures |r| == n && forall i: nat | i < n :: r[i] == Mkfs.Start(names, files, i)
  {
    if n == 0 then [] else Inodes(names, files, n - 1) + [Mkfs.Start(names, files, n - 1)]
  }

  lemma ImageSized(names: seq<seq<Byte>>, files: seq<seq<Byte>>)
    requires |names| == |files| <= Mkfs.NINODES - 2 && Mkfs.Fit(files)
    ensures Sized(Image(names, files))
  {
    hide Mkfs.Dir, Zeros, Needed, Image, Mkfs.Total;
    var p := Image(names, files);
    forall i: nat | i < |p.files| ensures |p.files[i].bytes| == MAXFILE * BSIZE {
      assert p.files[i] == Mkfs.Start(names, files, i);
    }
  }

  lemma ImageHolds(img: Fs, own: seq<Owner>, names: seq<seq<Byte>>, files: seq<seq<Byte>>)
    requires |names| == |files| <= Mkfs.NINODES - 2 && Mkfs.Fit(files)
    requires Inv(Mkfs.SUPER, img, own) && NoneLost(own) && Mkfs.Made(img, names, files)
    requires |FreeSet(Mkfs.SUPER, img.bitmap)| == Mkfs.FSSIZE - Mkfs.Total(files)
    ensures Holds(Mkfs.SUPER, img, img.inodes, own, Image(names, files))
  {
    hide Ref, Owns, FreeSet, AllBytes, RefsOf, SavedOf, Mkfs.Start, Mkfs.Fit, Mkfs.Total;
    assert LostSet(own) == {};
    forall i: nat | i < |img.inodes| ensures Behind(img.inodes[i], img.inodes[i]) {
      BehindSelf(img.inodes[i]);
    }
  }

  /** mkfs, and then any series of operations on the image.  Everything that comes of it can be told from the files and
      the operations: whether there are enough blocks, the files, and whether the disk has block ownership. */
  method RunFromImage(names: seq<seq<Byte>>, files: seq<seq<Byte>>, ops: seq<Op>)
    returns (made: bool, ok: bool, disk: FsDisk?)
    requires |names| == |files| <= Mkfs.NINODES - 2 && AllCallable(ops, Mkfs.NINODEBLOCKS * 8)
    ensures made <==> Mkfs.Fit(files)
    ensures made ==> disk != null && fresh(disk) && Sized(Image(names, files))
    ensures made ==> (ok <==> AllFit(Image(names, files), ops))
    ensures made && ok ==> Shows(disk, ApplyAll(Image(names, files), ops))
    ensures made && ok ==>
              (Owned(disk.sb, disk.OnDisk()) <==> Restarted(ApplyAll(Image(names, files), ops)).lost == 0)
  {
    hide Holds, Owned, EvictedAll, ApplyAll, AllFit, Mkfs.Fit, Sized, Inv, NoneLost, Mkfs.Made;
    disk, ok := null, false;
    var img;
    ghost var own;
    made, img, own := Mkfs.Build(names, files);
    if !made {
      return;
    }
    disk := new FsDisk(Mkfs.SUPER, img, own);
    ImageHolds(img, own, names, files);
    ImageSized(names, files);
    ok := Run(disk, ops, Image(names, files));
    if ok {
      OwnedExactly(disk, ApplyAll(Image(names, files), ops));
    }
  }
}
