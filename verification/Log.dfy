/** The on-disk redo log of src/log.c: the writes that commit and recovery issue, in order, and what a
    crash between any two of them leaves behind. */
module LogPlan {
  import opened Blocks

  type Disk = seq<Block>

  /** Where the log lives, and its sizes: `start` and `size` are log.start and log.size (from the super
      block), `cap` is LOGSIZE, `maxop` is MAXOPBLOCKS and `total` the number of blocks on the disk. */
  datatype Geometry = Geometry(start: nat, size: nat, cap: nat, maxop: nat, total: nat) {
    ghost predicate Valid() {
      && 1 <= maxop <= cap
      && 4 * (1 + cap) < BSIZE          // initlog: the header fits in a block
      && 1 <= size && start + size <= total <= WORD_LIMIT
    }

    ghost predicate Home(b: nat) {
      b < total && !(start <= b < start + size)
    }

    /** A usable list of logged blocks: distinct home blocks, as many as the log area can hold. */
    ghost predicate Listed(lh: seq<nat>) {
      && |lh| <= cap && |lh| < size
      && (forall i | 0 <= i < |lh| :: Home(lh[i]))
      && (forall i, j | 0 <= i < j < |lh| :: lh[i] != lh[j])
    }
  }

  // ---- the header block -------------------------------------------------------------------------

  function ReadCount(b: Block): (n: nat) { WordAt(b, 0) }

  /** The list read_head loads: the header's count, then that many block numbers. */
  function ReadHead(b: Block): (lh: seq<nat>)
    requires ReadCount(b) < WORDS
    ensures |lh| == ReadCount(b)
  {
    ReadEntries(b, ReadCount(b))
  }

  function ReadEntries(b: Block, n: nat): (lh: seq<nat>)
    requires n < WORDS
    ensures |lh| == n
  {
    if n == 0 then [] else ReadEntries(b, n - 1) + [WordAt(b, n)]
  }

  /** The first k entries of lh stored in words 1..k: the copying loop of write_head. */
  function PutBlocks(b: Block, lh: seq<nat>, k: nat): (r: Block)
    requires k <= |lh| < WORDS
    requires forall i | 0 <= i < |lh| :: lh[i] < WORD_LIMIT
  {
    if k == 0 then b else PutWord(PutBlocks(b, lh, k - 1), k, lh[k - 1])
  }

  /** Reading back the first k entries gives the first k block numbers. */
  lemma {:induction false} PutThenRead(b: Block, lh: seq<nat>, n: nat, k: nat)
    requires k <= n <= |lh| < WORDS
    requires forall i | 0 <= i < |lh| :: lh[i] < WORD_LIMIT
    ensures WordAt(PutBlocks(b, lh, n), 0) == WordAt(b, 0)
    ensures ReadEntries(PutBlocks(b, lh, n), k) == lh[..k]
    decreases n
  {
    if n > 0 {
      PutThenRead(b, lh, n - 1, if k < n then k else n - 1);
      SameEntries(PutBlocks(b, lh, n - 1), PutBlocks(b, lh, n), if k < n then k else n - 1);
    }
  }

  lemma {:induction false} SameEntries(b: Block, c: Block, k: nat)
    requires k < WORDS
    requires forall j: nat | 1 <= j <= k :: WordAt(b, j) == WordAt(c, j)
    ensures ReadEntries(b, k) == ReadEntries(c, k)
  {
    if k > 0 { SameEntries(b, c, k - 1); }
  }

  /** The header block after write_head has stored n and block[0..n) over its old bytes; read_head gets
      back exactly that list. */
  function HeadBlock(b: Block, lh: seq<nat>): (r: Block)
    requires |lh| < WORDS
    requires forall i | 0 <= i < |lh| :: lh[i] < WORD_LIMIT
    ensures ReadCount(r) == |lh|
    ensures ReadHead(r) == lh
  {
    PutThenRead(PutWord(b, 0, |lh|), lh, |lh|, |lh|);
    PutBlocks(PutWord(b, 0, |lh|), lh, |lh|)
  }

  /** Where they are: the count in the first word, and the block numbers in those after it. */
  lemma {:induction false} HeadWords(b: Block, lh: seq<nat>, k: nat)
    requires k < |lh| < WORDS && forall i | 0 <= i < |lh| :: lh[i] < WORD_LIMIT
    ensures WordAt(HeadBlock(b, lh), 0) == |lh| && WordAt(HeadBlock(b, lh), k + 1) == lh[k]
  {
    hide WordAt;
    EntryAt(HeadBlock(b, lh), |lh|, k);
  }

  lemma {:induction false} EntryAt(b: Block, n: nat, k: nat)
    requires k < n < WORDS
    ensures ReadEntries(b, n)[k] == WordAt(b, k + 1)
    decreases n
  {
    if k < n - 1 {
      EntryAt(b, n - 1, k);
    }
  }

  /** The disk's log header lists blocks that can be installed. */
  ghost predicate HeadOk(g: Geometry, d: Disk) {
    && g.Valid() && |d| == g.total
    && ReadCount(d[g.start]) < WORDS
    && g.Listed(ReadHead(d[g.start]))
  }

  /** Where b stands in lh, or |lh| when it is not listed. */
  ghost function Find(lh: seq<nat>, b: nat): (i: nat)
    ensures i <= |lh|
    ensures i < |lh| ==> lh[i] == b
    ensures i == |lh| ==> b !in lh
  {
    if b in lh then var i: nat :| i < |lh| && lh[i] == b; i else |lh|
  }

  // ---- install_trans and recover_from_log ----------------------------------------------------------

  /** The disk when install_trans has copied the first k logged blocks to their home locations. */
  function InstallDisk(g: Geometry, lh: seq<nat>, d: Disk, k: nat): (r: Disk)
    requires g.Valid() && g.Listed(lh) && |d| == g.total && k <= |lh|
    ensures |r| == |d|
  {
    if k == 0 then d else InstallDisk(g, lh, d, k - 1)[lh[k - 1] := d[g.start + k]]
  }

  /** The first k blocks of lh hold their log copies from d, and the rest of the disk is as in d. */
  ghost predicate Installed(g: Geometry, lh: seq<nat>, d: Disk, k: nat, r: Disk)
    requires g.Valid() && g.Listed(lh) && |d| == g.total && k <= |lh|
  {
    && |r| == g.total
    && (forall b {:trigger r[b]} | g.start <= b < g.start + g.size :: r[b] == d[b])
    && (forall b: nat {:trigger r[b]} | g.Home(b) ::
          r[b] == if Find(lh, b) < k then d[g.start + 1 + Find(lh, b)] else d[b])
  }

  lemma {:induction false} InstallPrefix(g: Geometry, lh: seq<nat>, d: Disk, k: nat)
    requires g.Valid() && g.Listed(lh) && |d| == g.total && k <= |lh|
    ensures Installed(g, lh, d, k, InstallDisk(g, lh, d, k))
  {
    if k > 0 {
      InstallPrefix(g, lh, d, k - 1);
      assert Find(lh, lh[k - 1]) == k - 1;
    }
  }

  /** How many block writes recover_from_log issues on the disk d. */
  function RecoverLength(g: Geometry, d: Disk): nat
    requires HeadOk(g, d)
  {
    |ReadHead(d[g.start])| + 1
  }

  /** The disk when a recovery that started on d stops after k block writes: install_trans copies the
      listed blocks home, then write_head clears the header. */
  function RecoverDisk(g: Geometry, d: Disk, k: nat): (r: Disk)
    requires HeadOk(g, d) && k <= RecoverLength(g, d)
    ensures |r| == |d|
  {
    var lh := ReadHead(d[g.start]);
    if k <= |lh| then InstallDisk(g, lh, d, k)
    else InstallDisk(g, lh, d, |lh|)[g.start := HeadBlock(d[g.start], [])]
  }

  /** The disk that an uninterrupted recovery leaves. */
  function Recover(g: Geometry, d: Disk): (r: Disk)
    requires HeadOk(g, d)
    ensures |r| == |d|
  {
    RecoverDisk(g, d, RecoverLength(g, d))
  }

  /** Where uninterrupted recovery takes every home block: to its log copy if the header lists it. */
  lemma RecoverHome(g: Geometry, d: Disk, b: nat)
    requires HeadOk(g, d) && g.Home(b)
    ensures var lh := ReadHead(d[g.start]);
            Recover(g, d)[b] == if b in lh then d[g.start + 1 + Find(lh, b)] else d[b]
  {
    InstallPrefix(g, ReadHead(d[g.start]), d, RecoverLength(g, d) - 1);
  }

  /** A crash between any two writes of a recovery changes nothing: recovering again, from whatever the
      first attempt left, gives the home blocks the value the first attempt was going to give them. */
  lemma RecoveryRestarts(g: Geometry, d: Disk, k: nat)
    requires HeadOk(g, d) && k <= RecoverLength(g, d)
    ensures HeadOk(g, RecoverDisk(g, d, k))
    ensures forall b: nat | g.Home(b) :: Recover(g, RecoverDisk(g, d, k))[b] == Recover(g, d)[b]
  {
    var r := RecoverDisk(g, d, k);
    var lh := ReadHead(d[g.start]);
    InstallPrefix(g, lh, d, if k <= |lh| then k else |lh|);
    forall b: nat | g.Home(b)
      ensures Recover(g, r)[b] == Recover(g, d)[b]
    {
      RecoverHome(g, d, b);
      RecoverHome(g, r, b);
    }
  }

  /** Any number of crashes during recovery: cuts[j] is how many writes the j-th attempt completed. */
  function Attempts(g: Geometry, d: Disk, cuts: seq<nat>): (r: Disk)
    requires HeadOk(g, d)
    ensures HeadOk(g, r)
    ensures forall b: nat | g.Home(b) :: Recover(g, r)[b] == Recover(g, d)[b]
    decreases |cuts|
  {
    if cuts == [] then d
    else
      var k := if cuts[0] <= RecoverLength(g, d) then cuts[0] else RecoverLength(g, d);
      RecoveryRestarts(g, d, k);
      Attempts(g, RecoverDisk(g, d, k), cuts[1..])
  }

  // ---- commit ------------------------------------------------------------------------------------

  /** The disk when write_log has copied the first k logged blocks from the cache to the log. */
  function LogDisk(g: Geometry, lh: seq<nat>, cache: Disk, d: Disk, k: nat): (r: Disk)
    requires g.Valid() && g.Listed(lh) && |cache| == |d| == g.total && k <= |lh|
    ensures |r| == |d|
    ensures forall b | 0 <= b < g.total ::
              r[b] == if g.start < b <= g.start + k then cache[lh[b - g.start - 1]] else d[b]
  {
    if k == 0 then d else LogDisk(g, lh, cache, d, k - 1)[g.start + k := cache[lh[k - 1]]]
  }

  /** The disk just after the header write of a commit: the point at which the group is durable. */
  function CommittedDisk(g: Geometry, lh: seq<nat>, cache: Disk, d: Disk): (r: Disk)
    requires g.Valid() && g.Listed(lh) && |cache| == |d| == g.total
    ensures |r| == |d| && r[g.start] == HeadBlock(d[g.start], lh)
    ensures forall b | 0 <= b < g.total && b != g.start ::
              r[b] == if g.start < b <= g.start + |lh| then cache[lh[b - g.start - 1]] else d[b]
    ensures HeadOk(g, r) && ReadHead(r[g.start]) == lh
  {
    LogDisk(g, lh, cache, d, |lh|)[g.start := HeadBlock(d[g.start], lh)]
  }

  /** How many block writes commit() issues for the logged blocks lh. */
  function CommitLength(lh: seq<nat>): nat {
    if lh == [] then 0 else 2 * |lh| + 2
  }

  /** The disk when a commit that started on d stops after k block writes: write_log, write_head,
      install_trans, and write_head again to erase the transaction. */
  function CommitDisk(g: Geometry, lh: seq<nat>, cache: Disk, d: Disk, k: nat): (r: Disk)
    requires g.Valid() && g.Listed(lh) && |cache| == |d| == g.total && k <= CommitLength(lh)
    ensures |r| == |d|
  {
    if k <= |lh| then LogDisk(g, lh, cache, d, k)
    else RecoverDisk(g, CommittedDisk(g, lh, cache, d), k - |lh| - 1)
  }

  /** Recovering after the header write, wherever installing stopped, installs the whole group. */
  lemma CrashAfterHeader(g: Geometry, lh: seq<nat>, cache: Disk, d: Disk, k: nat)
    requires g.Valid() && g.Listed(lh) && |cache| == |d| == g.total && k <= |lh| + 1
    ensures HeadOk(g, RecoverDisk(g, CommittedDisk(g, lh, cache, d), k))
    ensures forall b: nat | g.Home(b) ::
              Recover(g, RecoverDisk(g, CommittedDisk(g, lh, cache, d), k))[b] == if b in lh then cache[b] else d[b]
  {
    var c := CommittedDisk(g, lh, cache, d);
    RecoveryRestarts(g, c, k);
    forall b: nat | g.Home(b)
      ensures Recover(g, c)[b] == if b in lh then cache[b] else d[b]
    {
      RecoverHome(g, c, b);
    }
  }

  /** Recovering before the header write finds an empty header and changes no home block. */
  lemma CrashBeforeHeader(g: Geometry, lh: seq<nat>, cache: Disk, d: Disk, k: nat)
    requires g.Valid() && g.Listed(lh) && |cache| == |d| == g.total && k <= |lh|
    requires ReadCount(d[g.start]) == 0
    ensures HeadOk(g, LogDisk(g, lh, cache, d, k))
    ensures forall b: nat | g.Home(b) :: Recover(g, LogDisk(g, lh, cache, d, k))[b] == d[b]
  {
  }

  /** Crash atomicity.  Stop the commit of lh after any number k of its block writes and recover: every
      logged block has its cached (new) contents if the header write was among the k writes, and its old
      contents otherwise; no other home block changes. */
  lemma CrashAtomic(g: Geometry, lh: seq<nat>, cache: Disk, d: Disk, k: nat)
    requires g.Valid() && g.Listed(lh) && |cache| == |d| == g.total && k <= CommitLength(lh)
    requires ReadCount(d[g.start]) == 0
    ensures HeadOk(g, CommitDisk(g, lh, cache, d, k))
    ensures forall b: nat | g.Home(b) ::
              Recover(g, CommitDisk(g, lh, cache, d, k))[b] == if k > |lh| && b in lh then cache[b] else d[b]
  {
    if k > |lh| {
      CrashAfterHeader(g, lh, cache, d, k - |lh| - 1);
    } else {
      CrashBeforeHeader(g, lh, cache, d, k);
    }
  }

  /** ... and any number of crashes during the recoveries that follow make no difference. */
  lemma CrashAtomicRepeated(g: Geometry, lh: seq<nat>, cache: Disk, d: Disk, k: nat, cuts: seq<nat>)
    requires g.Valid() && g.Listed(lh) && |cache| == |d| == g.total && k <= CommitLength(lh)
    requires ReadCount(d[g.start]) == 0
    ensures HeadOk(g, CommitDisk(g, lh, cache, d, k))
    ensures forall b: nat | g.Home(b) ::
              Recover(g, Attempts(g, CommitDisk(g, lh, cache, d, k), cuts))[b] ==
              if k > |lh| && b in lh then cache[b] else d[b]
  {
    CrashAtomic(g, lh, cache, d, k);
  }
}
