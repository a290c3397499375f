/** Group commit: begin_op, log_write and end_op of any number of concurrent file-system operations, the
    block writes of commit and recovery one at a time, and a crash possible at every point.  Each spinlock
    critical section of src/log.c is one step. */
module GroupCommit {
  import opened Blocks
  import opened LogPlan

  /** One log_write by operation `op`. */
  datatype Logged = Logged(op: nat, blk: nat, data: Block)

  /** An operation between its begin_op and its end_op, with the distinct blocks it has logged. */
  datatype Op = Op(id: nat, blocks: set<nat>)

  datatype Mode =
    | Up                                      // log.committing == 0
    | Committing(before: Disk, done: nat)     // in commit(), `done` block writes issued since `before`
    | Recovering(before: Disk, done: nat)     // in recover_from_log()

  /** What became of an operation. */
  datatype Fate = Running | Ended | InGroup(k: nat) | Lost

  /** The first five fields are the program's; the others record what happened: the groups that committed,
      the writes of the group being built, those a crash dropped, and the fate of every operation so far. */
  datatype Sys = Sys(disk: Disk, cache: Disk, lh: seq<nat>, outstanding: int, mode: Mode,
                     active: seq<Op>, groups: seq<seq<Logged>>, open: seq<Logged>, lost: seq<Logged>,
                     fate: seq<Fate>)

  datatype Label =
    | BeginOp
    | LogWrite(i: nat, blk: nat, data: Block)  // by active[i]
    | EndOp(i: nat)
    | DiskWrite                                // the next block write of commit or recovery
    | FinishCommit
    | FinishRecovery
    | Crash

  /** log_write's absorption: a block is listed once. */
  function Absorb(lh: seq<nat>, b: nat): seq<nat> {
    if b in lh then lh else lh + [b]
  }

  function Replay(d: Disk, ws: seq<Logged>): (r: Disk)
    requires forall i | 0 <= i < |ws| :: ws[i].blk < |d|
    ensures |r| == |d|
  {
    if ws == [] then d
    else var w := ws[|ws| - 1]; Replay(d, ws[..|ws| - 1])[w.blk := w.data]
  }

  function Flat(gs: seq<seq<Logged>>): seq<Logged> {
    if gs == [] then [] else Flat(gs[..|gs| - 1]) + gs[|gs| - 1]
  }

  /** Reserved log space that the running operations have not used. */
  function Unspent(maxop: nat, ops: seq<Op>): int {
    if ops == [] then 0 else Unspent(maxop, ops[..|ops| - 1]) + maxop - |ops[|ops| - 1].blocks|
  }

  /** Well-formed enough for the next step to make sense. */
  ghost predicate Wf(g: Geometry, s: Sys) {
    && g.Valid() && g.Listed(s.lh)
    && |s.disk| == |s.cache| == g.total
    && (forall i | 0 <= i < |s.active| :: s.active[i].id < |s.fate|)
    && (s.mode.Committing? ==> |s.mode.before| == g.total && s.mode.done <= CommitLength(s.lh))
    && (s.mode.Recovering? ==> HeadOk(g, s.mode.before) && s.mode.done <= RecoverLength(g, s.mode.before))
  }

  ghost predicate Enabled(g: Geometry, s: Sys, l: Label)
    requires Wf(g, s)
  {
    match l
    case BeginOp =>
      s.mode.Up? && |s.lh| + (s.outstanding + 1) * g.maxop <= g.cap
    case LogWrite(i, blk, _) =>
      // the caller is inside an operation, and stays within its MAXOPBLOCKS distinct blocks;
      // the two guards are those of the "too big a transaction" panic
      && i < |s.active| && g.Home(blk) && |s.active[i].blocks + {blk}| <= g.maxop
      && |s.lh| < g.cap && |s.lh| < g.size - 1
    case EndOp(i) => i < |s.active|
    case DiskWrite =>
      || (s.mode.Committing? && s.mode.done < CommitLength(s.lh))
      || (s.mode.Recovering? && s.mode.done < RecoverLength(g, s.mode.before))
    case FinishCommit => s.mode.Committing? && s.mode.done == CommitLength(s.lh)
    case FinishRecovery => s.mode.Recovering? && s.mode.done == RecoverLength(g, s.mode.before)
    case Crash => HeadOk(g, s.disk)
  }

  function Settle(fate: seq<Fate>, f: Fate): (r: seq<Fate>)
    ensures |r| == |fate|
    ensures forall i | 0 <= i < |fate| ::
              r[i] == if fate[i] == Running || fate[i] == Ended then f else fate[i]
  {
    seq(|fate|, i requires 0 <= i < |fate| => if fate[i] == Running || fate[i] == Ended then f else fate[i])
  }

  function DoBegin(s: Sys): Sys {
    s.(outstanding := s.outstanding + 1, active := s.active + [Op(|s.fate|, {})], fate := s.fate + [Running])
  }

  function DoLogWrite(s: Sys, i: nat, blk: nat, data: Block): Sys
    requires i < |s.active| && blk < |s.cache|
  {
    var op := s.active[i];
    s.(cache := s.cache[blk := data], lh := Absorb(s.lh, blk),
       active := s.active[i := op.(blocks := op.blocks + {blk})],
       open := s.open + [Logged(op.id, blk, data)])
  }

  function DoEnd(s: Sys, i: nat): Sys
    requires i < |s.active| && s.active[i].id < |s.fate|
  {
    s.(outstanding := s.outstanding - 1, active := s.active[..i] + s.active[i + 1..],
       fate := s.fate[s.active[i].id := Ended],
       mode := if s.outstanding == 1 then Committing(s.disk, 0) else s.mode)
  }

  /** The next block write of commit(); the header write is the commit point. */
  ghost function DoCommitWrite(g: Geometry, s: Sys): Sys
    requires Wf(g, s) && s.mode.Committing? && s.mode.done < CommitLength(s.lh)
  {
    var k := s.mode.done + 1;
    var s' := s.(disk := CommitDisk(g, s.lh, s.cache, s.mode.before, k), mode := Committing(s.mode.before, k));
    if k == |s.lh| + 1
    then s'.(groups := s.groups + [s.open], open := [], fate := Settle(s.fate, InGroup(|s.groups|)))
    else s'
  }

  ghost function DoRecoverWrite(g: Geometry, s: Sys): Sys
    requires Wf(g, s) && s.mode.Recovering? && s.mode.done < RecoverLength(g, s.mode.before)
  {
    var k := s.mode.done + 1;
    s.(disk := RecoverDisk(g, s.mode.before, k), mode := Recovering(s.mode.before, k))
  }

  function DoCrash(s: Sys): Sys {
    s.(lh := [], outstanding := 0, active := [], open := [], lost := s.lost + s.open,
       fate := Settle(s.fate, Lost), mode := Recovering(s.disk, 0))
  }

  ghost function Next(g: Geometry, s: Sys, l: Label): Sys
    requires Wf(g, s) && Enabled(g, s, l)
  {
    match l
    case BeginOp => DoBegin(s)
    case LogWrite(i, blk, data) => DoLogWrite(s, i, blk, data)
    case EndOp(i) => DoEnd(s, i)
    case DiskWrite => if s.mode.Recovering? then DoRecoverWrite(g, s) else DoCommitWrite(g, s)
    case FinishCommit => s.(lh := [], mode := Up)
    case FinishRecovery => s.(cache := s.disk, mode := Up)
    case Crash => DoCrash(s)
  }

  /** A fresh system: an empty log on the disk and nothing cached that is not on it. */
  function Boot(d: Disk): Sys {
    Sys(d, d, [], 0, Up, [], [], [], [], [])
  }

  // ---- the invariant -----------------------------------------------------------------------------

  ghost predicate SameHome(g: Geometry, a: Disk, b: Disk) {
    && |a| == |b| == g.total
    && forall x: nat {:trigger a[x]} {:trigger b[x]} | g.Home(x) :: a[x] == b[x]
  }

  ghost predicate InRange(g: Geometry, ws: seq<Logged>) {
    forall i | 0 <= i < |ws| :: ws[i].blk < g.total
  }

  /** What the committed groups make of the initial disk. */
  ghost function Durable(g: Geometry, base: Disk, s: Sys): Disk
    requires |base| == g.total && InRange(g, Flat(s.groups))
  {
    Replay(base, Flat(s.groups))
  }

  /** Between commits: an empty log header, the committed groups on the disk, the open one in the cache. */
  ghost predicate StorageUp(g: Geometry, base: Disk, s: Sys)
    requires Wf(g, s) && |base| == g.total && InRange(g, Flat(s.groups)) && InRange(g, Flat(s.groups) + s.open)
  {
    && ReadCount(s.disk[g.start]) == 0
    && SameHome(g, s.disk, Durable(g, base, s))
    && SameHome(g, s.cache, Replay(base, Flat(s.groups) + s.open))
    && (forall b: nat | g.Home(b) && b !in s.lh :: s.cache[b] == s.disk[b])
  }

  /** In commit(): the disk is `done` block writes on from `before`. */
  ghost predicate StorageCommitting(g: Geometry, base: Disk, s: Sys, before: Disk, done: nat)
    requires Wf(g, s) && s.mode == Committing(before, done)
    requires |base| == g.total && InRange(g, Flat(s.groups)) && InRange(g, Flat(s.groups) + s.open)
  {
    && s.disk == CommitDisk(g, s.lh, s.cache, before, done)
    && ReadCount(before[g.start]) == 0
    && SameHome(g, s.cache, Replay(base, Flat(s.groups) + s.open))
    && (forall b: nat | g.Home(b) && b !in s.lh :: s.cache[b] == before[b])
    && (if done <= |s.lh| then SameHome(g, before, Durable(g, base, s)) else s.open == [])
  }

  ghost predicate Storage(g: Geometry, base: Disk, s: Sys)
    requires Wf(g, s)
  {
    && |base| == g.total
    && InRange(g, Flat(s.groups)) && InRange(g, s.open) && InRange(g, Flat(s.groups) + s.open)
    && (forall i | 0 <= i < |s.open| :: s.open[i].blk in s.lh)
    && match s.mode
       case Up => StorageUp(g, base, s)
       case Committing(before, done) => StorageCommitting(g, base, s, before, done)
       case Recovering(before, done) =>
         && s.lh == [] && s.open == []
         && s.disk == RecoverDisk(g, before, done)
         && SameHome(g, Recover(g, before), Durable(g, base, s))
  }

  /** Every write of an operation is where the operation's fate says. */
  ghost predicate Fates(s: Sys) {
    && (forall k, i | 0 <= k < |s.groups| && 0 <= i < |s.groups[k]| ::
          s.groups[k][i].op < |s.fate| && s.fate[s.groups[k][i].op] == InGroup(k))
    && (forall i | 0 <= i < |s.open| ::
          s.open[i].op < |s.fate| && (s.fate[s.open[i].op] == Running || s.fate[s.open[i].op] == Ended))
    && (forall i | 0 <= i < |s.lost| :: s.lost[i].op < |s.fate| && s.fate[s.lost[i].op] == Lost)
    && (forall i | 0 <= i < |s.active| :: s.active[i].id < |s.fate| && s.fate[s.active[i].id] == Running)
    && (forall i, j | 0 <= i < j < |s.active| :: s.active[i].id != s.active[j].id)
  }

  ghost predicate Reservation(g: Geometry, s: Sys) {
    && s.outstanding == |s.active|
    && (!s.mode.Up? ==> s.active == [])
    && (forall i | 0 <= i < |s.active| ::
          |s.active[i].blocks| <= g.maxop && forall b | b in s.active[i].blocks :: b in s.lh)
    && |s.lh| + Unspent(g.maxop, s.active) <= g.cap
  }

  ghost predicate Inv(g: Geometry, base: Disk, s: Sys) {
    Wf(g, s) && Storage(g, base, s) && Fates(s) && Reservation(g, s)
  }

  // ---- log reservation ---------------------------------------------------------------------------

  lemma {:induction false} UnspentBound(maxop: nat, ops: seq<Op>)
    ensures Unspent(maxop, ops) <= |ops| * maxop
  {
    if ops != [] {
      UnspentBound(maxop, ops[..|ops| - 1]);
      assert |ops| * maxop == (|ops| - 1) * maxop + maxop;
    }
  }

  lemma {:induction false} UnspentUpdate(maxop: nat, ops: seq<Op>, i: nat, op: Op)
    requires i < |ops|
    ensures Unspent(maxop, ops[i := op]) == Unspent(maxop, ops) + |ops[i].blocks| - |op.blocks|
  {
    var n := |ops| - 1;
    if i == n {
      assert ops[i := op][..n] == ops[..n];
    } else {
      UnspentUpdate(maxop, ops[..n], i, op);
      assert ops[i := op][..n] == ops[..n][i := op];
    }
  }

  lemma {:induction false} UnspentRemove(maxop: nat, ops: seq<Op>, i: nat)
    requires i < |ops|
    ensures Unspent(maxop, ops[..i] + ops[i + 1..]) == Unspent(maxop, ops) - maxop + |ops[i].blocks|
  {
    var n := |ops| - 1;
    var rest := ops[..i] + ops[i + 1..];
    if i == n {
      assert rest == ops[..n];
    } else {
      UnspentRemove(maxop, ops[..n], i);
      assert rest[..n - 1] == ops[..n][..i] + ops[..n][i + 1..];
      assert rest[n - 1] == ops[n];
    }
  }

  lemma ReservationBegin(g: Geometry, s: Sys)
    requires Wf(g, s) && Reservation(g, s) && Enabled(g, s, BeginOp)
    ensures Reservation(g, DoBegin(s))
  {
    UnspentBound(g.maxop, s.active);
    assert (s.active + [Op(|s.fate|, {})])[..|s.active|] == s.active;
    assert (s.outstanding + 1) * g.maxop == |s.active| * g.maxop + g.maxop;
  }

  lemma ReservationLogWrite(g: Geometry, s: Sys, i: nat, blk: nat, data: Block)
    requires Wf(g, s) && Reservation(g, s) && Enabled(g, s, LogWrite(i, blk, data))
    ensures Reservation(g, DoLogWrite(s, i, blk, data))
  {
    var op := s.active[i];
    UnspentUpdate(g.maxop, s.active, i, op.(blocks := op.blocks + {blk}));
    if blk in op.blocks {
      assert op.blocks + {blk} == op.blocks;
    }
  }

  lemma ReservationEnd(g: Geometry, s: Sys, i: nat)
    requires Wf(g, s) && Reservation(g, s) && i < |s.active|
    ensures Reservation(g, DoEnd(s, i))
  {
    UnspentRemove(g.maxop, s.active, i);
  }

  // ---- fates -------------------------------------------------------------------------------------

  lemma FatesLogWrite(s: Sys, i: nat, blk: nat, data: Block)
    requires Fates(s) && i < |s.active| && blk < |s.cache|
    ensures Fates(DoLogWrite(s, i, blk, data))
  {
  }

  lemma FatesEnd(s: Sys, i: nat)
    requires Fates(s) && i < |s.active|
    ensures Fates(DoEnd(s, i))
  {
    var rest := s.active[..i] + s.active[i + 1..];
    forall j | 0 <= j < |rest|
      ensures rest[j] == if j < i then s.active[j] else s.active[j + 1]
    {}
  }

  lemma FatesCommitWrite(g: Geometry, s: Sys)
    requires Wf(g, s) && Fates(s) && s.active == []
    requires s.mode.Committing? && s.mode.done < CommitLength(s.lh)
    ensures Fates(DoCommitWrite(g, s))
  {
    hide CommitDisk;
  }

  // ---- storage -----------------------------------------------------------------------------------

  lemma FlatSnoc(gs: seq<seq<Logged>>, ws: seq<Logged>)
    ensures Flat(gs + [ws]) == Flat(gs) + ws
  {
  }

  lemma ReplaySnoc(d: Disk, ws: seq<Logged>, w: Logged)
    requires w.blk < |d|
    requires forall i | 0 <= i < |ws| :: ws[i].blk < |d|
    ensures Replay(d, ws + [w]) == Replay(d, ws)[w.blk := w.data]
  {
  }

  lemma StorageLogWrite(g: Geometry, base: Disk, s: Sys, i: nat, blk: nat, data: Block)
    requires Wf(g, s) && Storage(g, base, s) && s.mode.Up? && Enabled(g, s, LogWrite(i, blk, data))
    ensures Wf(g, DoLogWrite(s, i, blk, data))
    ensures Storage(g, base, DoLogWrite(s, i, blk, data))
  {
    hide Flat, Replay, WordAt, Settle;
    var w := Logged(s.active[i].id, blk, data);
    ReplaySnoc(base, Flat(s.groups) + s.open, w);
    assert Flat(s.groups) + (s.open + [w]) == Flat(s.groups) + s.open + [w];
  }

  lemma StorageEnd(g: Geometry, base: Disk, s: Sys, i: nat)
    requires Wf(g, s) && Storage(g, base, s) && s.mode.Up? && i < |s.active|
    ensures Wf(g, DoEnd(s, i))
    ensures Storage(g, base, DoEnd(s, i))
  {
  }

  lemma StorageHeaderWrite(g: Geometry, base: Disk, s: Sys)
    requires Wf(g, s) && Storage(g, base, s)
    requires s.mode.Committing? && s.mode.done == |s.lh| < CommitLength(s.lh)
    ensures Wf(g, DoCommitWrite(g, s))
    ensures Storage(g, base, DoCommitWrite(g, s))
  {
    FlatSnoc(s.groups, s.open);
    assert Flat(s.groups) + s.open + [] == Flat(s.groups) + s.open;
  }

  lemma StorageDiskWrite(g: Geometry, base: Disk, s: Sys, s': Sys)
    requires Wf(g, s) && Storage(g, base, s)
    requires s.mode.Committing? && |s.lh| != s.mode.done < CommitLength(s.lh)
    requires s'.disk == CommitDisk(g, s.lh, s.cache, s.mode.before, s.mode.done + 1)
    requires s' == s.(disk := s'.disk, mode := Committing(s.mode.before, s.mode.done + 1))
    ensures Wf(g, s') && Storage(g, base, s')
  {
  }

  lemma StorageCommitWrite(g: Geometry, base: Disk, s: Sys)
    requires Wf(g, s) && Storage(g, base, s)
    requires s.mode.Committing? && |s.lh| != s.mode.done < CommitLength(s.lh)
    ensures Wf(g, DoCommitWrite(g, s))
    ensures Storage(g, base, DoCommitWrite(g, s))
  {
    StorageDiskWrite(g, base, s, DoCommitWrite(g, s));
  }

  lemma StorageFinishCommit(g: Geometry, base: Disk, s: Sys)
    requires Wf(g, s) && Storage(g, base, s) && Enabled(g, s, FinishCommit)
    ensures Wf(g, Next(g, s, FinishCommit))
    ensures Storage(g, base, Next(g, s, FinishCommit))
  {
    hide Flat, Replay, WordAt, LogDisk, LogPlan.ReadHead, HeadBlock;
    var before := s.mode.before;
    assert Flat(s.groups) + [] == Flat(s.groups);
    if s.lh != [] {
      CrashAfterHeader(g, s.lh, s.cache, before, 0);
      assert s.disk == Recover(g, CommittedDisk(g, s.lh, s.cache, before));
    }
  }

  lemma StorageCrash(g: Geometry, base: Disk, s: Sys)
    requires Wf(g, s) && Storage(g, base, s)
    ensures HeadOk(g, s.disk)
    ensures SameHome(g, Recover(g, s.disk), Durable(g, base, s))
  {
    match s.mode
    case Up => CrashBeforeHeader(g, [], s.disk, s.disk, 0);
    case Committing(before, done) =>
      CrashAtomic(g, s.lh, s.cache, before, done);
      assert Flat(s.groups) + [] == Flat(s.groups);
    case Recovering(before, done) => RecoveryRestarts(g, before, done);
  }

  lemma StorageFinishRecovery(g: Geometry, base: Disk, s: Sys)
    requires Wf(g, s) && Storage(g, base, s) && Enabled(g, s, FinishRecovery)
    ensures Wf(g, Next(g, s, FinishRecovery))
    ensures Storage(g, base, Next(g, s, FinishRecovery))
  {
    assert Flat(s.groups) + [] == Flat(s.groups);
  }

  lemma StorageAfterCrash(g: Geometry, base: Disk, s: Sys)
    requires Wf(g, s) && Storage(g, base, s)
    ensures Wf(g, DoCrash(s)) && Storage(g, base, DoCrash(s))
  {
    StorageCrash(g, base, s);
    assert Flat(s.groups) + [] == Flat(s.groups);
  }

  lemma StorageRecoverWrite(g: Geometry, base: Disk, s: Sys)
    requires Wf(g, s) && Storage(g, base, s) && Fates(s) && Enabled(g, s, DiskWrite) && s.mode.Recovering?
    ensures Wf(g, DoRecoverWrite(g, s)) && Storage(g, base, DoRecoverWrite(g, s)) && Fates(DoRecoverWrite(g, s))
  {
  }

  lemma BeginKeeps(g: Geometry, base: Disk, s: Sys)
    requires Inv(g, base, s) && Enabled(g, s, BeginOp)
    ensures Inv(g, base, DoBegin(s))
  {
    ReservationBegin(g, s);
  }

  lemma LogWriteKeeps(g: Geometry, base: Disk, s: Sys, i: nat, blk: nat, data: Block)
    requires Inv(g, base, s) && Enabled(g, s, LogWrite(i, blk, data))
    ensures Inv(g, base, DoLogWrite(s, i, blk, data))
  {
    ReservationLogWrite(g, s, i, blk, data);
    FatesLogWrite(s, i, blk, data);
    StorageLogWrite(g, base, s, i, blk, data);
  }

  lemma EndKeeps(g: Geometry, base: Disk, s: Sys, i: nat)
    requires Inv(g, base, s) && i < |s.active|
    ensures Inv(g, base, DoEnd(s, i))
  {
    ReservationEnd(g, s, i);
    FatesEnd(s, i);
    StorageEnd(g, base, s, i);
  }

  lemma DiskWriteKeeps(g: Geometry, base: Disk, s: Sys)
    requires Inv(g, base, s) && Enabled(g, s, DiskWrite)
    ensures Inv(g, base, Next(g, s, DiskWrite))
  {
    hide Fates, Storage;
    if s.mode.Committing? {
      FatesCommitWrite(g, s);
      if s.mode.done == |s.lh| {
        StorageHeaderWrite(g, base, s);
      } else {
        StorageCommitWrite(g, base, s);
      }
    } else {
      StorageRecoverWrite(g, base, s);
    }
  }

  lemma FinishKeeps(g: Geometry, base: Disk, s: Sys, l: Label)
    requires l == FinishCommit || l == FinishRecovery
    requires Inv(g, base, s) && Enabled(g, s, l)
    ensures Inv(g, base, Next(g, s, l))
  {
    if l == FinishCommit {
      StorageFinishCommit(g, base, s);
    } else {
      StorageFinishRecovery(g, base, s);
    }
  }

  lemma CrashKeeps(g: Geometry, base: Disk, s: Sys)
    requires Inv(g, base, s)
    ensures Inv(g, base, DoCrash(s))
  {
    hide Storage, Wf;
    StorageAfterCrash(g, base, s);
  }

  /** Every step keeps the invariant. */
  lemma Step(g: Geometry, base: Disk, s: Sys, l: Label)
    requires Inv(g, base, s) && Enabled(g, s, l)
    ensures Inv(g, base, Next(g, s, l))
  {
    hide Storage, Fates, Reservation, Wf;
    match l
    case BeginOp => BeginKeeps(g, base, s);
    case LogWrite(i, blk, data) => LogWriteKeeps(g, base, s, i, blk, data);
    case EndOp(i) => EndKeeps(g, base, s, i);
    case DiskWrite => DiskWriteKeeps(g, base, s);
    case FinishCommit => FinishKeeps(g, base, s, l);
    case FinishRecovery => FinishKeeps(g, base, s, l);
    case Crash => CrashKeeps(g, base, s);
  }

  // ---- whole runs --------------------------------------------------------------------------------

  /** t is what a run of the system, from a boot on the disk d, can reach by the steps ls. */
  ghost predicate Reaches(g: Geometry, d: Disk, ls: seq<Label>, t: Sys) {
    if ls == [] then t == Boot(d)
    else exists s ::
      && Reaches(g, d, ls[..|ls| - 1], s)
      && Wf(g, s) && Enabled(g, s, ls[|ls| - 1])
      && t == Next(g, s, ls[|ls| - 1])
  }

  lemma {:induction false} RunKeeps(g: Geometry, d: Disk, ls: seq<Label>, t: Sys)
    requires g.Valid() && |d| == g.total && ReadCount(d[g.start]) == 0
    requires Reaches(g, d, ls, t)
    ensures Inv(g, d, t)
  {
    if ls == [] {
      BootInv(g, d);
    } else {
      var s :| Reaches(g, d, ls[..|ls| - 1], s) && Wf(g, s) && Enabled(g, s, ls[|ls| - 1])
               && t == Next(g, s, ls[|ls| - 1]);
      RunKeeps(g, d, ls[..|ls| - 1], s);
      Step(g, d, s, ls[|ls| - 1]);
    }
  }

  lemma BootInv(g: Geometry, d: Disk)
    requires g.Valid() && |d| == g.total && ReadCount(d[g.start]) == 0
    ensures Inv(g, d, Boot(d))
  {
    var s := Boot(d);
    assert Flat(s.groups) + s.open == [];
  }

  /** Group commit.  At every point of every run, a crash followed by recovery leaves on the home blocks
      the effect of a whole number of groups; and an operation with a write in one of those groups has
      ended and has all the writes it ever made in that one group. */
  lemma WholeGroups(g: Geometry, d: Disk, ls: seq<Label>, t: Sys)
    requires g.Valid() && |d| == g.total && ReadCount(d[g.start]) == 0
    requires Reaches(g, d, ls, t)
    ensures HeadOk(g, t.disk) && InRange(g, Flat(t.groups))
    ensures forall b: nat | g.Home(b) :: Recover(g, t.disk)[b] == Replay(d, Flat(t.groups))[b]
    ensures forall k, i | 0 <= k < |t.groups| && 0 <= i < |t.groups[k]| ::
              var o := t.groups[k][i].op;
              && (forall j | 0 <= j < |t.active| :: t.active[j].id != o)
              && (forall j | 0 <= j < |t.open| :: t.open[j].op != o)
              && (forall j | 0 <= j < |t.lost| :: t.lost[j].op != o)
              && (forall m, j | 0 <= m < |t.groups| && m != k && 0 <= j < |t.groups[m]| :: t.groups[m][j].op != o)
  {
    RunKeeps(g, d, ls, t);
    StorageCrash(g, d, t);
  }

  /** No log_write happens, and no end_op panics, while a commit is under way. */
  lemma NoWriteDuringCommit(g: Geometry, d: Disk, ls: seq<Label>, t: Sys, i: nat, blk: nat, data: Block)
    requires g.Valid() && |d| == g.total && ReadCount(d[g.start]) == 0
    requires Reaches(g, d, ls, t) && t.mode.Committing?
    ensures Wf(g, t) && !Enabled(g, t, LogWrite(i, blk, data)) && !Enabled(g, t, EndOp(i))
  {
    RunKeeps(g, d, ls, t);
  }

  /** Log reservation: in every reachable state the listed blocks plus the unspent reservations fit in LOGSIZE, and
      every listed block has its slot inside the log area.  Of the two guards of log_write, the one for LOGSIZE meets an
      operation within its reservation only when that operation, and every other, has used its reservation up and the
      block is one it has logged before; an operation with reservation left is refused by the log-area guard alone. */
  lemma LogReserved(g: Geometry, d: Disk, ls: seq<Label>, t: Sys)
    requires g.Valid() && |d| == g.total && ReadCount(d[g.start]) == 0
    requires Reaches(g, d, ls, t)
    ensures |t.lh| + Unspent(g.maxop, t.active) <= g.cap && |t.lh| < g.size && Wf(g, t)
    ensures forall i: nat, blk: nat, data | InReservation(g, t, i, blk) ::
              Enabled(g, t, LogWrite(i, blk, data)) <==> |t.lh| < g.size - 1 && !SpentLog(g, t)
    ensures SpentLog(g, t) ==> forall i: nat, blk: nat | InReservation(g, t, i, blk) :: blk in t.active[i].blocks
  {
    hide Storage, Fates, Unspent;
    RunKeeps(g, d, ls, t);
    UnspentNonNegative(g.maxop, t.active);
    if |t.lh| >= g.cap {
      UnspentNone(g.maxop, t.active);
      forall i: nat, blk: nat | InReservation(g, t, i, blk) ensures blk in t.active[i].blocks {
        FullSet(t.active[i].blocks, blk);
      }
    }
  }

  /** Operation i may log the block: it is none of the log's, and with it the operation keeps to MAXOPBLOCKS. */
  ghost predicate InReservation(g: Geometry, s: Sys, i: nat, blk: nat) {
    i < |s.active| && g.Home(blk) && |s.active[i].blocks + {blk}| <= g.maxop
  }

  /** LOGSIZE blocks are listed, and no operation has reservation left. */
  ghost predicate SpentLog(g: Geometry, s: Sys) {
    |s.lh| == g.cap && forall i | 0 <= i < |s.active| :: |s.active[i].blocks| == g.maxop
  }

  lemma FullSet(s: set<nat>, x: nat)
    ensures |s + {x}| <= |s| ==> x in s
  {
    if x !in s {
      assert |s + {x}| == |s| + 1;
    }
  }

  lemma {:induction false} UnspentNone(maxop: nat, ops: seq<Op>)
    requires (forall i | 0 <= i < |ops| :: |ops[i].blocks| <= maxop) && Unspent(maxop, ops) <= 0
    ensures forall i | 0 <= i < |ops| :: |ops[i].blocks| == maxop
  {
    if ops != [] {
      UnspentNonNegative(maxop, ops[..|ops| - 1]);
      UnspentNone(maxop, ops[..|ops| - 1]);
    }
  }

  lemma {:induction false} UnspentNonNegative(maxop: nat, ops: seq<Op>)
    requires forall i | 0 <= i < |ops| :: |ops[i].blocks| <= maxop
    ensures 0 <= Unspent(maxop, ops)
  {
    if ops != [] {
      UnspentNonNegative(maxop, ops[..|ops| - 1]);
    }
  }

  // ---- durability --------------------------------------------------------------------------------

  /** No step takes anything back out of the groups, and none but the header write of a commit adds to them. */
  lemma GroupsGrow(g: Geometry, base: Disk, s: Sys, l: Label)
    requires Inv(g, base, s) && Enabled(g, s, l)
    ensures var t := Next(g, s, l);
            t.groups == s.groups
              || (l.DiskWrite? && s.mode.Committing? && t.groups == s.groups + [s.open] && t.open == [])
  {
    hide Storage, Fates, Reservation;
  }

  lemma {:induction false} ReachesOne(g: Geometry, d: Disk, ls: seq<Label>, s: Sys, t: Sys)
    requires Reaches(g, d, ls, s) && Reaches(g, d, ls, t)
    ensures s == t
  {
    if ls != [] {
      var s1 :| Reaches(g, d, ls[..|ls| - 1], s1) && Wf(g, s1) && Enabled(g, s1, ls[|ls| - 1])
                && s == Next(g, s1, ls[|ls| - 1]);
      var t1 :| Reaches(g, d, ls[..|ls| - 1], t1) && Wf(g, t1) && Enabled(g, t1, ls[|ls| - 1])
                && t == Next(g, t1, ls[|ls| - 1]);
      ReachesOne(g, d, ls[..|ls| - 1], s1, t1);
    }
  }

  /** The groups at any point of a run are the first of those at its end, whatever crashes come between. */
  lemma {:induction false} GroupsPrefix(g: Geometry, d: Disk, ls: seq<Label>, n: nat, s: Sys, t: Sys)
    requires g.Valid() && |d| == g.total && ReadCount(d[g.start]) == 0
    requires n <= |ls| && Reaches(g, d, ls[..n], s) && Reaches(g, d, ls, t)
    ensures s.groups <= t.groups
    decreases |ls|
  {
    hide Inv, Wf, Enabled, Next;
    if n == |ls| {
      assert ls[..n] == ls;
      ReachesOne(g, d, ls, s, t);
    } else {
      var u :| Reaches(g, d, ls[..|ls| - 1], u) && Wf(g, u) && Enabled(g, u, ls[|ls| - 1])
               && t == Next(g, u, ls[|ls| - 1]);
      assert ls[..|ls| - 1][..n] == ls[..n];
      GroupsPrefix(g, d, ls[..|ls| - 1], n, s, u);
      RunKeeps(g, d, ls[..|ls| - 1], u);
      GroupsGrow(g, d, u, ls[|ls| - 1]);
    }
  }

  /** With no operation running and no commit under way, nothing logged waits for a commit. */
  ghost predicate Settled(s: Sys) {
    s.mode.Up? && s.active == [] ==> s.open == [] && s.lh == []
  }

  lemma SettledStep(g: Geometry, base: Disk, s: Sys, l: Label)
    requires Inv(g, base, s) && Settled(s) && Enabled(g, s, l)
    ensures Settled(Next(g, s, l))
  {
    hide Fates, Unspent;
  }

  lemma {:induction false} RunSettled(g: Geometry, d: Disk, ls: seq<Label>, t: Sys)
    requires g.Valid() && |d| == g.total && ReadCount(d[g.start]) == 0
    requires Reaches(g, d, ls, t)
    ensures Settled(t)
  {
    hide Inv;
    if ls != [] {
      var s :| Reaches(g, d, ls[..|ls| - 1], s) && Wf(g, s) && Enabled(g, s, ls[|ls| - 1])
               && t == Next(g, s, ls[|ls| - 1]);
      RunKeeps(g, d, ls[..|ls| - 1], s);
      RunSettled(g, d, ls[..|ls| - 1], s);
      SettledStep(g, d, s, ls[|ls| - 1]);
    }
  }

  lemma CacheIsDurable(g: Geometry, base: Disk, s: Sys)
    requires Wf(g, s) && Storage(g, base, s) && s.mode.Up? && s.open == []
    ensures InRange(g, Flat(s.groups)) && |base| == g.total && SameHome(g, s.cache, Durable(g, base, s))
  {
    hide Replay, Flat;
    assert Flat(s.groups) + [] == Flat(s.groups);
  }

  lemma WritesPlaced(s: Sys)
    requires Fates(s)
    ensures forall o: nat | o < |s.fate| && (s.fate[o] == Running || s.fate[o] == Ended) ::
              && (forall k, i | 0 <= k < |s.groups| && 0 <= i < |s.groups[k]| :: s.groups[k][i].op != o)
              && (forall i | 0 <= i < |s.lost| :: s.lost[i].op != o)
  {
  }

  /** Durability.  Whenever no operation runs and no commit is under way, and so when end_op returns to the last
      operation, what the operations see is what a crash would leave, and every write of an operation that no crash
      dropped is in a group. */
  lemma Durability(g: Geometry, d: Disk, ls: seq<Label>, t: Sys)
    requires g.Valid() && |d| == g.total && ReadCount(d[g.start]) == 0
    requires Reaches(g, d, ls, t) && t.mode.Up? && t.active == []
    ensures t.open == [] && HeadOk(g, t.disk) && SameHome(g, t.cache, Recover(g, t.disk))
    ensures forall o: nat | o < |t.fate| && (t.fate[o] == Running || t.fate[o] == Ended) ::
              && (forall k, i | 0 <= k < |t.groups| && 0 <= i < |t.groups[k]| :: t.groups[k][i].op != o)
              && (forall i | 0 <= i < |t.lost| :: t.lost[i].op != o)
  {
    hide Storage, Reservation, Replay, Flat, Recover, Fates;
    RunKeeps(g, d, ls, t);
    RunSettled(g, d, ls, t);
    StorageCrash(g, d, t);
    CacheIsDurable(g, d, t);
    WritesPlaced(t);
  }

  /** How many log_writes a run has. */
  function LogWrites(ls: seq<Label>): nat {
    if ls == [] then 0 else LogWrites(ls[..|ls| - 1]) + if ls[|ls| - 1].LogWrite? then 1 else 0
  }

  /** Every log_write is accounted for: it is in a committed group, waits for the next commit, or was lost in a
      crash. */
  lemma {:induction false} WritesConserved(g: Geometry, d: Disk, ls: seq<Label>, t: Sys)
    requires g.Valid() && |d| == g.total && ReadCount(d[g.start]) == 0
    requires Reaches(g, d, ls, t)
    ensures |Flat(t.groups)| + |t.open| + |t.lost| == LogWrites(ls)
  {
    hide Inv, Wf, Enabled, Next, Flat;
    if ls == [] {
      NoWrites(d);
    } else {
      var s :| Reaches(g, d, ls[..|ls| - 1], s) && Wf(g, s) && Enabled(g, s, ls[|ls| - 1])
               && t == Next(g, s, ls[|ls| - 1]);
      WritesConserved(g, d, ls[..|ls| - 1], s);
      WriteCounted(g, s, ls[|ls| - 1]);
    }
  }

  lemma NoWrites(d: Disk)
    ensures |Flat(Boot(d).groups)| + |Boot(d).open| + |Boot(d).lost| == 0
  {
  }

  lemma WriteCounted(g: Geometry, s: Sys, l: Label)
    requires Wf(g, s) && Enabled(g, s, l)
    ensures var t := Next(g, s, l);
            |Flat(t.groups)| + |t.open| + |t.lost|
              == |Flat(s.groups)| + |s.open| + |s.lost| + if l.LogWrite? then 1 else 0
  {
    hide CommitDisk, RecoverDisk, Settle, Flat;
    FlatSnoc(s.groups, s.open);
  }

  // ---- when a step can be taken ------------------------------------------------------------------

  /** begin_op: with no commit and no recovery under way it waits exactly if MAXOPBLOCKS new blocks of each running
      operation, and of the newcomer, would together with the listed ones exceed LOGSIZE; and so never if none runs. */
  lemma BeginAdmits(g: Geometry, d: Disk, ls: seq<Label>, t: Sys)
    requires g.Valid() && |d| == g.total && ReadCount(d[g.start]) == 0
    requires Reaches(g, d, ls, t)
    ensures Wf(g, t)
    ensures t.mode.Up? ==> (!Enabled(g, t, BeginOp) <==> |t.lh| + |t.active| * g.maxop + g.maxop > g.cap)
    ensures !t.mode.Up? ==> !Enabled(g, t, BeginOp)
    ensures t.mode.Up? && t.active == [] ==> Enabled(g, t, BeginOp)
  {
    hide Reaches, Storage, Fates, Reservation, Wf, Enabled;
    RunKeeps(g, d, ls, t);
    RunSettled(g, d, ls, t);
    BeginExact(g, t);
  }

  lemma BeginExact(g: Geometry, s: Sys)
    requires Wf(g, s) && Reservation(g, s) && Settled(s)
    ensures Enabled(g, s, BeginOp) <==> s.mode.Up? && |s.lh| + |s.active| * g.maxop + g.maxop <= g.cap
    ensures s.mode.Up? && s.active == [] ==> Enabled(g, s, BeginOp)
  {
    hide Unspent, HeadOk, RecoverLength, CommitLength;
    assert (s.outstanding + 1) * g.maxop == |s.active| * g.maxop + g.maxop;
  }

  /** The other steps: a running operation can always end, a commit or recovery can always go on, with a block write
      until all are made and then to its end, and a crash can come at any time. */
  lemma NeverStuck(g: Geometry, d: Disk, ls: seq<Label>, t: Sys)
    requires g.Valid() && |d| == g.total && ReadCount(d[g.start]) == 0
    requires Reaches(g, d, ls, t)
    ensures Wf(g, t) && Enabled(g, t, Crash)
    ensures forall i: nat :: Enabled(g, t, EndOp(i)) <==> i < |t.active|
    ensures t.mode.Up? <==> !Enabled(g, t, DiskWrite) && !Enabled(g, t, FinishCommit) && !Enabled(g, t, FinishRecovery)
    ensures Enabled(g, t, FinishCommit) ==> t.mode.Committing? && !Enabled(g, t, DiskWrite)
    ensures Enabled(g, t, FinishRecovery) ==> t.mode.Recovering? && !Enabled(g, t, DiskWrite)
  {
    RunKeeps(g, d, ls, t);
    StorageCrash(g, d, t);
  }

  /** Two operations in one group, the second of which begins after the first has logged a block. */
  function Joining(a: Block, b: Block): seq<Label> {
    [BeginOp, LogWrite(0, 100, a), BeginOp, LogWrite(1, 101, b), EndOp(0), EndOp(0), DiskWrite, DiskWrite, DiskWrite]
  }

  lemma JoinsGroup(d: Disk, a: Block, b: Block) returns (t: Sys)
    requires |d| == 1000 && ReadCount(d[2]) == 0
    ensures Reaches(Sized(30), d, Joining(a, b), t)
    ensures t.groups == [[Logged(0, 100, a), Logged(1, 101, b)]] && t.mode.Committing? && t.mode.done == 3
  {
    hide Reaches, Wf, Enabled, Next, Storage, Fates, Reservation;
    var ls := Joining(a, b);
    t := Boot(d);
    ReachesBoot(Sized(30), d);
    var i := 0;
    while i < 9
      invariant 0 <= i <= 9 && Reaches(Sized(30), d, ls[..i], t) && Joined(t, i, a, b)
    {
      RunKeeps(Sized(30), d, ls[..i], t);
      JoinStep(t, i, a, b);
      ReachesSnoc(Sized(30), d, ls[..i], t, ls[i]);
      assert ls[..i] + [ls[i]] == ls[..i + 1];
      t := Next(Sized(30), t, ls[i]);
      i := i + 1;
    }
    assert ls[..9] == ls;
  }

  /** The run after its first i steps. */
  ghost predicate Joined(t: Sys, i: nat, a: Block, b: Block) {
    var ws := [Logged(0, 100, a), Logged(1, 101, b)];
    && t.lh == [100, 101][..if i < 2 then 0 else if i < 4 then 1 else 2]
    && t.outstanding == |t.active| == (if i < 6 then [0, 1, 1, 2, 2, 1][i] else 0)
    && |t.fate| == (if i < 3 then |t.active| else 2)
    && (i < 5 ==> forall k | 0 <= k < |t.active| :: t.active[k].id == k && |t.active[k].blocks| <= i)
    && (if i < 6 then t.mode.Up? else t.mode.Committing? && t.mode.done == i - 6)
    && (if i < 9 then t.open == ws[..|t.lh|] && t.groups == [] else t.open == [] && t.groups == [ws])
  }

  lemma JoinStep(s: Sys, i: nat, a: Block, b: Block)
    requires i < 9 && Wf(Sized(30), s) && Joined(s, i, a, b)
    ensures Enabled(Sized(30), s, Joining(a, b)[i]) && Joined(Next(Sized(30), s, Joining(a, b)[i]), i + 1, a, b)
  {
    if i == 0 || i == 2 {
      JoinBegin(s, i, a, b);
    } else if i == 1 || i == 3 {
      JoinWrite(s, i, a, b);
    } else if i < 6 {
      JoinEnd(s, i, a, b);
    } else {
      JoinDisk(s, i, a, b);
    }
    hide *;
  }

  lemma JoinBegin(s: Sys, i: nat, a: Block, b: Block)
    requires (i == 0 || i == 2) && Wf(Sized(30), s) && Joined(s, i, a, b)
    ensures Enabled(Sized(30), s, BeginOp) && Joined(DoBegin(s), i + 1, a, b)
  {
  }

  lemma JoinWrite(s: Sys, i: nat, a: Block, b: Block)
    requires (i == 1 || i == 3) && Wf(Sized(30), s) && Joined(s, i, a, b)
    ensures var k := i / 2;
            && Enabled(Sized(30), s, LogWrite(k, 100 + k, [a, b][k]))
            && Joined(DoLogWrite(s, k, 100 + k, [a, b][k]), i + 1, a, b)
  {
    var k := i / 2;
    var ws, op := [Logged(0, 100, a), Logged(1, 101, b)], s.active[k];
    assert |op.blocks + {100 + k}| <= |op.blocks| + 1;
    assert ws[..k] + [ws[k]] == ws[..k + 1] && [100, 101][..k] + [100 + k] == [100, 101][..k + 1];
  }

  lemma JoinEnd(s: Sys, i: nat, a: Block, b: Block)
    requires 4 <= i < 6 && Wf(Sized(30), s) && Joined(s, i, a, b)
    ensures Enabled(Sized(30), s, EndOp(0)) && Joined(DoEnd(s, 0), i + 1, a, b)
  {
  }

  lemma JoinDisk(s: Sys, i: nat, a: Block, b: Block)
    requires 6 <= i < 9 && Wf(Sized(30), s) && Joined(s, i, a, b)
    ensures Enabled(Sized(30), s, DiskWrite) && Joined(Next(Sized(30), s, DiskWrite), i + 1, a, b)
  {
    hide CommitDisk;
    assert [Logged(0, 100, a), Logged(1, 101, b)][..2] == [Logged(0, 100, a), Logged(1, 101, b)];
  }

  lemma ReachesBoot(g: Geometry, d: Disk)
    ensures Reaches(g, d, [], Boot(d))
  {
  }

  // ---- the "too big a transaction" panic ---------------------------------------------------------

  /** A disk of 1000 blocks with nlog log blocks at 2; mkfs makes nlog == LOGSIZE == 30. */
  function Sized(nlog: nat): Geometry { Geometry(2, nlog, 30, 10, 1000) }

  /** n begin_ops. */
  function Begins(n: nat): seq<Label> {
    if n == 0 then [] else Begins(n - 1) + [BeginOp]
  }

  /** Three operations that together log the blocks 100, 101, ...: ten each. */
  function Fill(d: Disk, j: nat): seq<Label>
    requires |d| == 1000 && j <= 30
  {
    if j == 0 then Begins(3) else Fill(d, j - 1) + [LogWrite((j - 1) / 10, 99 + j, d[99 + j])]
  }

  ghost predicate Filling(n: nat, j: nat, t: Sys) {
    && t.mode.Up? && |t.active| == t.outstanding == n && |t.lh| == j
    && (forall k | 0 <= k < n ::
           |t.active[k].blocks| == if j < 10 * k then 0 else if j < 10 * k + 10 then j - 10 * k else 10)
    && (forall k | 0 <= k < n :: forall b | b in t.active[k].blocks :: b < 100 + j)
    && (forall b | b in t.lh :: b < 100 + j)
  }

  lemma ReachesSnoc(g: Geometry, d: Disk, ls: seq<Label>, s: Sys, l: Label)
    requires Reaches(g, d, ls, s) && Wf(g, s) && Enabled(g, s, l)
    ensures Reaches(g, d, ls + [l], Next(g, s, l))
  {
    assert (ls + [l])[..|ls|] == ls;
  }

  lemma FillWrite(nlog: nat, s: Sys, j: nat, data: Block)
    requires 1 <= j <= 30 && j < nlog < 98 && Wf(Sized(nlog), s) && Filling(3, j - 1, s)
    ensures Enabled(Sized(nlog), s, LogWrite((j - 1) / 10, 99 + j, data))
    ensures Filling(3, j, DoLogWrite(s, (j - 1) / 10, 99 + j, data))
  {
    var i, blk := (j - 1) / 10, 99 + j;
    assert blk !in s.active[i].blocks && blk !in s.lh;
    assert |s.active[i].blocks + {blk}| == |s.active[i].blocks| + 1;
  }

  lemma {:induction false} BeginRun(nlog: nat, d: Disk, n: nat) returns (t: Sys)
    requires 30 <= nlog < 98 && |d| == 1000 && ReadCount(d[2]) == 0 && n <= 3
    ensures Reaches(Sized(nlog), d, Begins(n), t) && Filling(n, 0, t)
  {
    if n == 0 {
      t := Boot(d);
    } else {
      var s := BeginRun(nlog, d, n - 1);
      RunKeeps(Sized(nlog), d, Begins(n - 1), s);
      ReachesSnoc(Sized(nlog), d, Begins(n - 1), s, BeginOp);
      t := DoBegin(s);
    }
  }

  lemma FillStep(nlog: nat, d: Disk, j: nat, s: Sys) returns (t: Sys)
    requires 30 <= nlog < 98 && |d| == 1000 && ReadCount(d[2]) == 0 && 1 <= j <= 30 && j < nlog
    requires Reaches(Sized(nlog), d, Fill(d, j - 1), s) && Filling(3, j - 1, s)
    ensures Reaches(Sized(nlog), d, Fill(d, j), t) && Filling(3, j, t)
  {
    hide Storage, Fates, Reservation, Filling, Reaches, Absorb;
    RunKeeps(Sized(nlog), d, Fill(d, j - 1), s);
    FillWrite(nlog, s, j, d[99 + j]);
    ReachesSnoc(Sized(nlog), d, Fill(d, j - 1), s, LogWrite((j - 1) / 10, 99 + j, d[99 + j]));
    t := DoLogWrite(s, (j - 1) / 10, 99 + j, d[99 + j]);
  }

  lemma {:induction false} FillRun(nlog: nat, d: Disk, j: nat) returns (t: Sys)
    requires 30 <= nlog < 98 && |d| == 1000 && ReadCount(d[2]) == 0 && j <= 30 && j < nlog
    ensures Reaches(Sized(nlog), d, Fill(d, j), t) && Filling(3, j, t)
  {
    hide Filling, Reaches;
    if j == 0 {
      t := BeginRun(nlog, d, 3);
    } else {
      var s := FillRun(nlog, d, j - 1);
      t := FillStep(nlog, d, j, s);
    }
  }

  /** On a disk made by mkfs the log-area guard of log_write is within reach of operations that keep to their
      reservation: here the third operation has logged nine blocks, and a tenth one panics. */
  lemma TooBigATransaction(d: Disk) returns (t: Sys)
    requires |d| == 1000 && ReadCount(d[2]) == 0
    ensures Reaches(Sized(30), d, Fill(d, 29), t) && Wf(Sized(30), t)
    ensures |t.active[2].blocks| == 9 && InReservation(Sized(30), t, 2, 500)
    ensures !Enabled(Sized(30), t, LogWrite(2, 500, d[500]))
  {
    t := FillRun(30, d, 29);
    RunKeeps(Sized(30), d, Fill(d, 29), t);
  }

  /** On a disk with a larger log the LOGSIZE guard is: three operations have logged their ten blocks, and logging one
      of them once more, which would take no log space, panics. */
  lemma LoggedAgain(d: Disk) returns (t: Sys, blk: nat)
    requires |d| == 1000 && ReadCount(d[2]) == 0
    ensures Reaches(Sized(40), d, Fill(d, 30), t) && Wf(Sized(40), t) && |t.lh| < 40 - 1
    ensures InReservation(Sized(40), t, 2, blk) && Absorb(t.lh, blk) == t.lh
    ensures !Enabled(Sized(40), t, LogWrite(2, blk, d[blk]))
  {
    t := FillRun(40, d, 30);
    RunKeeps(Sized(40), d, Fill(d, 30), t);
    assert |t.active[2].blocks| == 10;
    blk :| blk in t.active[2].blocks;
    assert t.active[2].blocks + {blk} == t.active[2].blocks;
  }
}
