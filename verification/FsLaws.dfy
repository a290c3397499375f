/** What holds of the file system as a value, whatever the operations: no block goes unaccounted for, files without
    holes lose none, and exactly when others do. */
module FsLaws {
  import opened Blocks
  import opened FsModel
  import opened FileOps
  import opened FsRun
  import Mkfs

  // ---- well-formed files ----------------------------------------------------------------------------------

  /** Bytes are zero where there is no block, the disk has no address that memory lacks, and an entry of the indirect
      block comes with the indirect block. */
  ghost predicate Tidy(f: File) {
    && |f.bytes| == MAXFILE * BSIZE && f.size <= MAXFILE * BSIZE && f.saved <= AddrsOf(f.refs)
    && (forall k | k in f.refs && k > NDIRECT :: NDIRECT in f.refs)
    && (forall p: nat | p < MAXFILE * BSIZE && SlotOf(p / BSIZE) !in f.refs :: f.bytes[p] == 0)
  }

  ghost predicate AllTidy(p: Plain) {
    forall i: nat | i < |p.files| :: Tidy(p.files[i])
  }

  lemma TidyWritten(f: File, off: nat, src: seq<Byte>)
    requires Tidy(f) && off + |src| <= MAXFILE * BSIZE
    ensures Tidy(f.(bytes := Patch(f.bytes, off, src), refs := f.refs + Needed(off, |src|)))
  {
    hide Patch;
    var g := f.(bytes := Patch(f.bytes, off, src), refs := f.refs + Needed(off, |src|));
    forall k | k in g.refs && k > NDIRECT ensures NDIRECT in g.refs {
      assert k in Needed(off, |src|) ==> NDIRECT in Needed(off, |src|);
    }
    SlotsNeeded(off, |src|);
  }

  lemma SlotsNeeded(off: nat, n: nat)
    requires off + n <= MAXFILE * BSIZE
    ensures forall p: nat | off <= p < off + n :: SlotOf(p / BSIZE) in Needed(off, n)
  {
  }

  lemma TidyMore(f: File, off: nat, n: nat)
    requires Tidy(f) && off + n <= MAXFILE * BSIZE
    ensures Tidy(f.(refs := f.refs + Needed(off, n)))
  {
    var g := f.(refs := f.refs + Needed(off, n));
    forall k | k in g.refs && k > NDIRECT ensures NDIRECT in g.refs {
      assert k in Needed(off, n) ==> NDIRECT in Needed(off, n);
    }
  }

  lemma TidyForgotten(f: File)
    requires Tidy(f)
    ensures Tidy(Forgotten(f)) && Forgotten(f).refs <= f.refs && AddrsOf(Forgotten(f).refs) <= f.saved
  {
    var g := Forgotten(f);
    forall k | k in g.refs && k > NDIRECT ensures NDIRECT in g.refs {
      assert NDIRECT in f.saved;
    }
    forall k | k in g.saved ensures k in AddrsOf(g.refs) {
      assert k in AddrsOf(f.refs);
    }
  }

  lemma {:induction false} TidyEvicted(p: Plain, n: nat)
    requires AllTidy(p) && n <= |p.files|
    ensures AllTidy(EvictedAll(p, n))
    ensures forall i: nat | i < |p.files| ::
              EvictedAll(p, n).files[i] == if i < n then Forgotten(p.files[i]) else p.files[i]
  {
    hide Tidy, Forgotten;
    if n > 0 {
      TidyEvicted(p, n - 1);
      TidyForgotten(p.files[n - 1]);
    }
  }

  lemma ApplyTidy(p: Plain, op: Op)
    requires AllTidy(p) && Sized(p) && Callable(op, |p.files|) && Fits(p, op)
    ensures AllTidy(Apply(p, op))
  {
    hide Tidy, Needed, Patch, Zeros, Forgotten, EvictedAll;
    if op.Restart? {
      TidyEvicted(p, |p.files|);
    } else {
      var f := p.files[op.inum];
      match op
      case Write(_, off, src) =>
        if Writes(f, off, |src|) {
          TidyWritten(f, off, src);
          TidySize(f.(bytes := Patch(f.bytes, off, src), refs := f.refs + Needed(off, |src|)), off + |src|);
        }
      case Read(_, off, n) =>
        if Reads(f, off, n) {
          TidySizes(f);
          TidyMore(f, off, Last(f.size, off, n) - off);
        } else {
          assert f.(refs := f.refs + {}) == f;
        }
      case Truncate(_) => TidyEmptied(f);
      case Forget(_) => TidyForgotten(f);
    }
  }

  lemma TidySizes(f: File)
    requires Tidy(f)
    ensures f.size <= MAXFILE * BSIZE
  {
  }

  lemma TidySize(f: File, size: nat)
    requires Tidy(f) && size <= MAXFILE * BSIZE
    ensures Tidy(f.(size := size, saved := AddrsOf(f.refs)))
  {
  }

  lemma TidyEmptied(f: File)
    ensures Tidy(Emptied(f))
  {
  }

  lemma {:induction false} ApplyAllTidy(p: Plain, ops: seq<Op>)
    requires AllTidy(p) && Sized(p) && AllCallable(ops, |p.files|) && AllFit(p, ops)
    ensures AllTidy(ApplyAll(p, ops))
    decreases |ops|
  {
    hide AllTidy, Apply, Fits, Sized;
    if |ops| > 0 {
      ApplyTidy(p, ops[0]);
      ApplySized(p, ops[0]);
      ApplyAllTidy(Apply(p, ops[0]), ops[1..]);
    }
  }

  // ---- what a restart loses -------------------------------------------------------------------------------

  /** The disk's copy of the inode has all addresses. */
  predicate Synced(f: File) {
    AddrsOf(f.refs) <= f.saved
  }

  /** A restart keeps a file as it is if its inode is up to date on the disk, and loses blocks of it if not. */
  lemma ForgetExactly(f: File)
    requires Tidy(f)
    ensures Synced(f) <==> Forgotten(f) == f
    ensures Synced(f) <==> f.refs - Forgotten(f).refs == {}
  {
    if Synced(f) {
      forall k | k in f.refs ensures Visible(f.saved, k) {
        assert k <= NDIRECT ==> k in AddrsOf(f.refs);
        assert NDIRECT in f.refs ==> NDIRECT in AddrsOf(f.refs);
      }
      assert RefsLeft(f.refs, f.saved) == f.refs;
      forall p: nat | p < |f.bytes| ensures Blanked(f.bytes, f.saved)[p] == f.bytes[p] {}
      assert Blanked(f.bytes, f.saved) == f.bytes;
    } else {
      var k :| k in AddrsOf(f.refs) && k !in f.saved;
      assert k in f.refs - Forgotten(f).refs;
    }
  }

  ghost predicate AllSynced(p: Plain) {
    forall i: nat | i < |p.files| :: Synced(p.files[i])
  }

  lemma {:induction false} EvictExactly(p: Plain, n: nat)
    requires AllTidy(p) && n <= |p.files|
    ensures EvictedAll(p, n).lost >= p.lost
    ensures EvictedAll(p, n).lost == p.lost <==> forall i: nat | i < n :: Synced(p.files[i])
    ensures (forall i: nat | i < n :: Synced(p.files[i])) ==> EvictedAll(p, n) == p
  {
    hide Tidy, Forgotten, Synced;
    if n > 0 {
      EvictExactly(p, n - 1);
      TidyEvicted(p, n - 1);
      ForgetExactly(p.files[n - 1]);
      assert p.files[n - 1 := p.files[n - 1]] == p.files;
    }
  }

  /** The disk has block ownership exactly if no block was lost so far and every inode on it is up to date; and then a
      restart changes nothing. */
  lemma RestartExactly(p: Plain)
    requires AllTidy(p)
    ensures Restarted(p).lost == 0 <==> p.lost == 0 && AllSynced(p)
    ensures AllSynced(p) ==> Restarted(p) == p
  {
    hide Tidy, EvictedAll, Synced;
    EvictExactly(p, |p.files|);
  }

  // ---- files without holes --------------------------------------------------------------------------------

  /** No file has a hole, every inode on the disk is up to date, and nothing is lost. */
  ghost predicate Sound(p: Plain) {
    p.lost == 0 && AllSynced(p) && AllTidy(p) && forall i: nat | i < |p.files| :: Whole(p.files[i])
  }

  lemma NeedsWithin(off: nat, n: nat, size: nat)
    requires off + n <= size
    ensures Needed(off, n) <= Needed(0, size)
  {
  }

  /** A write that reaches the end of a file needs what lies between. */
  lemma NeedsJoin(off: nat, n: nat, size: nat)
    requires off <= size <= off + n
    ensures Needed(0, off + n) <= Needed(0, size) + Needed(off, n)
  {
  }

  lemma NeedsNothing()
    ensures Needed(0, 0) == {} && AddrsOf({}) == {}
  {
  }

  lemma SoundFile(f: File, off: nat, n: nat)
    requires Synced(f) && Whole(f) && off + n <= f.size
    ensures f.refs + Needed(off, n) == f.refs
  {
    hide Needed;
    NeedsWithin(off, n, f.size);
  }

  lemma SoundWritten(f: File, off: nat, src: seq<Byte>)
    requires Synced(f) && Whole(f) && off <= f.size && off + |src| <= |f.bytes|
    ensures Synced(Written(f, off, src)) && Whole(Written(f, off, src))
  {
    hide Needed, Patch;
    if off + |src| <= f.size {
      SoundFile(f, off, |src|);
    } else {
      NeedsJoin(off, |src|, f.size);
    }
  }

  /** They stay so. */
  lemma SoundStep(p: Plain, op: Op)
    requires Sound(p) && Sized(p) && Callable(op, |p.files|) && Fits(p, op)
    ensures Sound(Apply(p, op))
  {
    hide Tidy, Needed, Patch, Zeros, Forgotten, EvictedAll, Written, Synced, Whole;
    ApplyTidy(p, op);
    if op.Restart? {
      RestartExactly(p);
    } else {
      var f := p.files[op.inum];
      assert Tidy(f) && Synced(f) && Whole(f);
      match op
      case Write(_, off, src) =>
        if Writes(f, off, |src|) {
          SoundWritten(f, off, src);
        }
      case Read(_, off, n) =>
        if Reads(f, off, n) {
          SoundFile(f, off, Last(f.size, off, n) - off);
        }
        assert f.refs + {} == f.refs && f.(refs := f.refs) == f;
      case Truncate(_) => EmptiedSound(f);
      case Forget(_) =>
        ForgetExactly(f);
        assert |f.refs - f.refs| == 0;
    }
  }

  lemma EmptiedSound(f: File)
    ensures Synced(Emptied(f)) && Whole(Emptied(f))
  {
    NeedsNothing();
  }

  /** No series of operations, restarts among them, loses a block of files without holes. */
  lemma {:induction false} NeverLost(p: Plain, ops: seq<Op>)
    requires Sound(p) && Sized(p) && AllCallable(ops, |p.files|) && AllFit(p, ops)
    ensures Sound(ApplyAll(p, ops)) && Restarted(ApplyAll(p, ops)) == ApplyAll(p, ops)
    decreases |ops|
  {
    hide Apply, Fits, Sized, EvictedAll, AllTidy;
    if |ops| > 0 {
      SoundStep(p, ops[0]);
      ApplySized(p, ops[0]);
      NeverLost(Apply(p, ops[0]), ops[1..]);
    } else {
      RestartExactly(p);
    }
  }

  // ---- every block is accounted for -----------------------------------------------------------------------

  function HeldBy(files: seq<File>): nat {
    if |files| == 0 then 0 else HeldBy(files[..|files| - 1]) + |files[|files| - 1].refs|
  }

  /** The blocks that are free, lost, or referred to. */
  function Accounted(p: Plain): nat { p.free + p.lost + HeldBy(p.files) }

  lemma {:induction false} HeldChanged(files: seq<File>, i: nat, g: File)
    requires i < |files|
    ensures HeldBy(files[i := g]) == HeldBy(files) - |files[i].refs| + |g.refs|
  {
    var n := |files| - 1;
    if i < n {
      HeldChanged(files[..n], i, g);
      assert files[i := g][..n] == files[..n][i := g];
    } else {
      assert files[i := g][..n] == files[..n];
    }
  }

  lemma MoreSize(a: set<nat>, b: set<nat>)
    ensures |a + b| == |a| + |b - a|
  {
    assert a + b == a + (b - a);
  }

  lemma EvictConserves(p: Plain, i: nat)
    requires i < |p.files|
    ensures Accounted(Evicted(p, i)) == Accounted(p)
  {
    hide HeldBy, Forgotten;
    var f := p.files[i];
    HeldChanged(p.files, i, Forgotten(f));
    FewerLeft(f);
    SetParts(f.refs, Forgotten(f).refs);
  }

  lemma FewerLeft(f: File)
    ensures Forgotten(f).refs <= f.refs
  {
  }

  lemma {:induction false} EvictAllConserves(p: Plain, n: nat)
    requires n <= |p.files|
    ensures Accounted(EvictedAll(p, n)) == Accounted(p)
  {
    hide Evicted, Accounted;
    if n > 0 {
      EvictAllConserves(p, n - 1);
      EvictConserves(EvictedAll(p, n - 1), n - 1);
    }
  }

  /** No operation changes their number. */
  lemma ConservedStep(p: Plain, op: Op)
    requires Sized(p) && Callable(op, |p.files|) && Fits(p, op)
    ensures Accounted(Apply(p, op)) == Accounted(p)
  {
    hide HeldBy, EvictedAll, Evicted, Patch, Needed, Written;
    if op.Restart? {
      EvictAllConserves(p, |p.files|);
    } else if op.Forget? {
      EvictConserves(p, op.inum);
    } else {
      var f, g := p.files[op.inum], Apply(p, op).files[op.inum];
      HeldChanged(p.files, op.inum, g);
      MoreSize(f.refs, Wanted(f, op));
      if op.Write? && Writes(f, op.off, |op.src|) {
        WrittenRefs(f, op.off, op.src);
      } else if !op.Truncate? {
        assert f.refs + {} == f.refs;
      }
    }
  }

  lemma WrittenRefs(f: File, off: nat, src: seq<Byte>)
    requires off + |src| <= |f.bytes|
    ensures Written(f, off, src).refs == f.refs + Needed(off, |src|)
  {
    hide Needed;
  }

  /** Nor does any series of them, restarts among them. */
  lemma {:induction false} Conserved(p: Plain, ops: seq<Op>)
    requires Sized(p) && AllCallable(ops, |p.files|) && AllFit(p, ops)
    ensures Accounted(ApplyAll(p, ops)) == Accounted(p)
    decreases |ops|
  {
    hide Apply, Fits, Sized, Accounted;
    if |ops| > 0 {
      ConservedStep(p, ops[0]);
      ApplySized(p, ops[0]);
      Conserved(Apply(p, ops[0]), ops[1..]);
    }
  }

  // ---- images of mkfs ---------------------------------------------------------------------------------------

  lemma StoredTidy(typ: int, size: nat, bytes: seq<Byte>)
    requires |bytes| <= MAXFILE * BSIZE && size <= MAXFILE * BSIZE
    ensures Tidy(Mkfs.Stored(typ, size, bytes)) && Synced(Mkfs.Stored(typ, size, bytes))
  {
    hide Zeros;
    var f := Mkfs.Stored(typ, size, bytes);
    forall k | k in f.refs && k > NDIRECT ensures NDIRECT in f.refs {
      assert k in Needed(0, |bytes|) ==> NDIRECT in Needed(0, |bytes|);
    }
    SlotsNeeded(0, |bytes|);
  }

  lemma ImageTidy(names: seq<seq<Byte>>, files: seq<seq<Byte>>)
    requires |names| == |files| <= Mkfs.NINODES - 2 && Mkfs.Fit(files)
    ensures Sized(Image(names, files)) && AllTidy(Image(names, files)) && AllSynced(Image(names, files))
  {
    hide Mkfs.Stored, Mkfs.Dir, Tidy, Synced, Mkfs.Total;
    ImageSized(names, files);
    var p := Image(names, files);
    forall i: nat | i < |p.files| ensures Tidy(p.files[i]) && Synced(p.files[i]) {
      if i == Mkfs.ROOTINO {
        StoredTidy(Mkfs.T_DIR, Mkfs.RoundUp(|Mkfs.Dir(names)|), Mkfs.Dir(names));
      } else if 2 <= i < |files| + 2 {
        StoredTidy(Mkfs.T_FILE, |files[i - 2]|, files[i - 2]);
      } else {
        StoredTidy(0, 0, []);
      }
    }
  }

  /** The bytes after the last entry of a root directory whose entries fill whole blocks. */
  function HoleRead(n: nat): Op { Read(Mkfs.ROOTINO, Mkfs.DIRENT * (n + 2), Mkfs.DIRENT) }

  function HoleWrite(n: nat, entry: seq<Byte>): Op { Write(Mkfs.ROOTINO, Mkfs.DIRENT * (n + 2), entry) }

  /** The root directory has a hole exactly if its entries fill whole blocks, and it is one block, right after them. */
  lemma RootHole(names: seq<seq<Byte>>, files: seq<seq<Byte>>)
    requires |names| == |files| <= Mkfs.NINODES - 2 && Mkfs.Fit(files)
    ensures var f, off := Mkfs.Start(names, files, Mkfs.ROOTINO), Mkfs.DIRENT * (|names| + 2);
            && (Whole(f) <==> off % BSIZE != 0)
            && (off % BSIZE == 0 ==>
                  && f.size == off + BSIZE <= MAXFILE * BSIZE && Needed(off, Mkfs.DIRENT) == {off / BSIZE}
                  && off / BSIZE !in f.refs && off / BSIZE <= NDIRECT && off / BSIZE !in f.saved)
  {
    hide Zeros, Mkfs.Dir;
    var f, off := Mkfs.Start(names, files, Mkfs.ROOTINO), Mkfs.DIRENT * (|names| + 2);
    var k := off / BSIZE;
    if off % BSIZE == 0 {
      assert Needs(k, 0, f.size) && !Needs(k, 0, off);
      assert k in Needed(0, f.size);
      forall m: nat ensures m in Needed(off, Mkfs.DIRENT) <==> m == k {}
    } else {
      forall m | m in Needed(0, f.size) ensures m in f.refs {}
    }
  }

  lemma ImageSound(names: seq<seq<Byte>>, files: seq<seq<Byte>>)
    requires |names| == |files| <= Mkfs.NINODES - 2 && Mkfs.Fit(files)
    ensures Sound(Image(names, files)) <==> Mkfs.DIRENT * (|names| + 2) % BSIZE != 0
  {
    hide Needed, Zeros, Mkfs.Dir, Image, Mkfs.Total, AddrsOf, Synced, Tidy;
    RootHole(names, files);
    ImageTidy(names, files);
    var p := Image(names, files);
    assert p.files[Mkfs.ROOTINO] == Mkfs.Start(names, files, Mkfs.ROOTINO);
    forall i: nat | i < |p.files| && i != Mkfs.ROOTINO ensures Whole(p.files[i]) {
      assert p.files[i] == Mkfs.Start(names, files, i);
    }
  }

  /** A read or write of the hole takes a block and does not put its address on the disk. */
  lemma HoleLost(p: Plain, f: File, n: nat, op: Op)
    requires AllTidy(p) && Sized(p) && Mkfs.ROOTINO < |p.files| && f == p.files[Mkfs.ROOTINO] && p.free > 0
    requires n < Mkfs.NINODES && f.typ != T_DEV && f.size == Mkfs.DIRENT * (n + 2) + BSIZE <= MAXFILE * BSIZE
    requires var off := Mkfs.DIRENT * (n + 2);
             && Needed(off, Mkfs.DIRENT) == {off / BSIZE} && off / BSIZE !in f.refs
             && off / BSIZE <= NDIRECT && off / BSIZE !in f.saved
    requires op == HoleRead(n) || (op.Write? && op == HoleWrite(n, op.src) && |op.src| == Mkfs.DIRENT)
    ensures Callable(op, |p.files|) && Fits(p, op) && Restarted(Apply(p, op)).lost > 0
  {
    hide Needed, Patch, Zeros, EvictedAll, Tidy;
    var off := Mkfs.DIRENT * (n + 2);
    var k := off / BSIZE;
    assert {k} - f.refs == {k};
    ApplyTidy(p, op);
    RestartExactly(Apply(p, op));
    var g := Apply(p, op).files[Mkfs.ROOTINO];
    assert k in AddrsOf(g.refs) && k !in g.saved;
    assert !Synced(g);
  }

  lemma OneOp(p: Plain, op: Op)
    requires Sized(p) && Callable(op, |p.files|) && Fits(p, op)
    ensures AllCallable([op], |p.files|) && AllFit(p, [op]) && ApplyAll(p, [op]) == Apply(p, op)
  {
    hide Apply, Fits, Sized;
    ApplySized(p, op);
    assert [op][1..] == [];
  }

  lemma TwoOps(p: Plain, op1: Op, op2: Op)
    requires Sized(p) && Callable(op1, |p.files|) && Fits(p, op1)
    requires Callable(op2, |p.files|) && Fits(Apply(p, op1), op2) && Sized(Apply(p, op1))
    ensures AllCallable([op1, op2], |p.files|) && AllFit(p, [op1, op2])
    ensures ApplyAll(p, [op1, op2]) == Apply(Apply(p, op1), op2)
  {
    hide Apply, Fits, Sized;
    ApplySized(p, op1);
    OneOp(Apply(p, op1), op2);
    assert [op1, op2][1..] == [op2];
  }

  lemma {:induction false} SomeBytes(files: seq<seq<Byte>>) returns (j: nat)
    requires Mkfs.FileBlocks(files) > 0
    ensures j < |files| && |files[j]| > 0
  {
    var n := |files| - 1;
    if |files[n]| > 0 {
      j := n;
    } else {
      j := SomeBytes(files[..n]);
    }
  }

  /** Emptying a file with bytes gives back blocks and leaves the root directory as it is. */
  lemma MakesRoom(names: seq<seq<Byte>>, files: seq<seq<Byte>>, j: nat)
    requires |names| == |files| <= Mkfs.NINODES - 2 && Mkfs.Fit(files) && j < |files| && |files[j]| > 0
    requires Sized(Image(names, files))
    ensures var p, op := Image(names, files), Truncate(j + 2);
            && Callable(op, |p.files|) && Fits(p, op) && Apply(p, op).free > 0
            && Apply(p, op).files[Mkfs.ROOTINO] == p.files[Mkfs.ROOTINO]
  {
    hide Mkfs.Dir, Zeros, Mkfs.Total;
    var p := Image(names, files);
    assert p.files[j + 2] == Mkfs.Start(names, files, j + 2);
    assert 0 in p.files[j + 2].refs;
  }

  /** Operations that lose a block, if the entries fill whole blocks: a read of the bytes after them, after making room
      for a block if need be. */
  lemma LosingOps(names: seq<seq<Byte>>, files: seq<seq<Byte>>) returns (ops: seq<Op>)
    requires |names| == |files| <= Mkfs.NINODES - 2 && Mkfs.Fit(files) && Mkfs.DIRENT * (|names| + 2) % BSIZE == 0
    requires Sized(Image(names, files))
    ensures AllCallable(ops, Mkfs.NINODEBLOCKS * 8) && AllFit(Image(names, files), ops)
    ensures Restarted(ApplyAll(Image(names, files), ops)).lost > 0
  {
    hide Needed, Apply, Fits, EvictedAll, AllTidy, AllSynced, Sized, Mkfs.Stored, Mkfs.FileBlocks, Inodes;
    var p, op := Image(names, files), HoleRead(|names|);
    ImageTidy(names, files);
    RootHole(names, files);
    RootKind(names, files);
    if Mkfs.Total(files) < Mkfs.FSSIZE {
      HoleLost(p, p.files[Mkfs.ROOTINO], |names|, op);
      OneOp(p, op);
      ops := [op];
    } else {
      var j := SomeBytes(files);
      MakesRoom(names, files, j);
      var q := Apply(p, Truncate(j + 2));
      ApplyTidy(p, Truncate(j + 2));
      ApplySized(p, Truncate(j + 2));
      HoleLost(q, q.files[Mkfs.ROOTINO], |names|, op);
      TwoOps(p, Truncate(j + 2), op);
      ops := [Truncate(j + 2), op];
    }
  }

  lemma RootKind(names: seq<seq<Byte>>, files: seq<seq<Byte>>)
    requires |names| == |files| <= Mkfs.NINODES - 2 && Mkfs.Fit(files)
    ensures Image(names, files).files[Mkfs.ROOTINO] == Mkfs.Start(names, files, Mkfs.ROOTINO)
    ensures Mkfs.Start(names, files, Mkfs.ROOTINO).typ == Mkfs.T_DIR != T_DEV
    ensures Image(names, files).free == Mkfs.FSSIZE - Mkfs.Total(files)
  {
  }

  /** On an image of mkfs some series of operations loses blocks exactly when the directory entries fill whole
      blocks. */
  lemma LosesExactly(names: seq<seq<Byte>>, files: seq<seq<Byte>>)
    requires |names| == |files| <= Mkfs.NINODES - 2 && Mkfs.Fit(files)
    ensures Sized(Image(names, files))
    ensures (exists ops :: AllCallable(ops, Mkfs.NINODEBLOCKS * 8) && AllFit(Image(names, files), ops)
                           && Restarted(ApplyAll(Image(names, files), ops)).lost > 0)
            <==> Mkfs.DIRENT * (|names| + 2) % BSIZE == 0
  {
    hide Image, AllFit, ApplyAll, Sized, Mkfs.Fit, EvictedAll;
    ImageSound(names, files);
    ImageTidy(names, files);
    if Mkfs.DIRENT * (|names| + 2) % BSIZE == 0 {
      var ops := LosingOps(names, files);
    } else {
      forall ops | AllCallable(ops, Mkfs.NINODEBLOCKS * 8) && AllFit(Image(names, files), ops)
        ensures Restarted(ApplyAll(Image(names, files), ops)).lost == 0
      {
        NeverLost(Image(names, files), ops);
      }
    }
  }

  /** Such an image: of any thirty files, which with "." and ".." make 32 entries, that is, one block.  Looking beyond
      them for a name, as dirlookup does, leaves a block marked that no inode on the disk refers to, and so does writing
      a new entry. */
  method RootEntryLost(names: seq<seq<Byte>>, files: seq<seq<Byte>>, op: Op) returns (disk: FsDisk?)
    requires |names| == |files| == 30 && Mkfs.Fit(files) && Mkfs.Total(files) < Mkfs.FSSIZE
    requires op == HoleRead(30) || (op.Write? && op == HoleWrite(30, op.src) && |op.src| == Mkfs.DIRENT)
    ensures disk != null && !Owned(disk.sb, disk.OnDisk())
  {
    hide Needed, Apply, Fits, EvictedAll, AllTidy, AllSynced, Sized, Mkfs.Stored, Image, AllFit, ApplyAll, Owned, Shows;
    ghost var p := Image(names, files);
    ImageTidy(names, files);
    RootHole(names, files);
    RootKind(names, files);
    HoleLost(p, p.files[Mkfs.ROOTINO], 30, op);
    OneOp(p, op);
    var made, ok;
    made, ok, disk := RunFromImage(names, files, [op]);
  }
}
