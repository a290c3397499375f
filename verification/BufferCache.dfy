/** The buffer cache of src/bio.c with the B_DIRTY pin of src/log.c: calls of bread, log_write, bwrite and brelse by
    any number of processes, taken apart where they give up bcache.lock or wait for a buffer's sleep lock. */
module BufferCache {
  import opened Blocks

  /** A buffer; `users` are the calls that hold a reference, `holder` the one that has its sleep lock. */
  datatype Buf = Buf(dev: nat, blockno: nat, valid: bool, dirty: bool, refcnt: nat, data: Block,
                     users: set<nat>, holder: Holder)
  datatype Holder = NoOne | Call(k: nat)

  /** A call of bread, and what its caller does with the buffer up to the end of brelse.  `touched`: the data was
      changed and not yet passed to log_write or bwrite. */
  datatype Phase =
    | Asking(dev: nat, blockno: nat)
    | Waiting(b: nat) | Locked(b: nat) | Using(b: nat, touched: bool) | Releasing(b: nat)
    | Gone

  /** `flat` is the disk as its users see it: what was last written to each block. */
  datatype Sys = Sys(bufs: seq<Buf>, calls: seq<Phase>, disk: seq<Block>, flat: seq<Block>)

  datatype Label =
    | Ask(dev: nat, blockno: nat)
    | Hit(k: nat, b: nat) | Miss(k: nat, b: nat)     // bget
    | Lock(k: nat) | Fill(k: nat)                    // acquiresleep, and the read of bread
    | Modify(k: nat, data: Block) | LogWrite(k: nat) | Bwrite(k: nat)
    | Unlock(k: nat) | Drop(k: nat)                  // brelse

  predicate Refers(c: Phase, b: nat) {
    (c.Waiting? || c.Locked? || c.Using? || c.Releasing?) && c.b == b
  }

  predicate Owns(c: Phase, b: nat) {
    (c.Locked? || c.Using?) && c.b == b
  }

  predicate OnDisk(s: Sys, q: Buf) {
    q.dev == 1 && q.blockno < |s.disk|
  }

  predicate Enabled(s: Sys, l: Label) {
    match l
    case Ask(_, _) => true
    case Hit(k, b) =>
      && k < |s.calls| && b < |s.bufs| && s.calls[k].Asking?
      && s.bufs[b].dev == s.calls[k].dev && s.bufs[b].blockno == s.calls[k].blockno
    case Miss(k, b) =>
      && k < |s.calls| && b < |s.bufs| && s.calls[k].Asking?
      && (forall i | 0 <= i < |s.bufs| :: s.bufs[i].dev != s.calls[k].dev || s.bufs[i].blockno != s.calls[k].blockno)
      && s.bufs[b].refcnt == 0 && !s.bufs[b].dirty
    case Lock(k) =>
      k < |s.calls| && s.calls[k].Waiting? && s.calls[k].b < |s.bufs| && s.bufs[s.calls[k].b].holder == NoOne
    case Fill(k) =>
      && k < |s.calls| && s.calls[k].Locked? && s.calls[k].b < |s.bufs|
      && (s.bufs[s.calls[k].b].valid || OnDisk(s, s.bufs[s.calls[k].b]))
    case Modify(k, _) => k < |s.calls| && s.calls[k].Using? && s.calls[k].b < |s.bufs|
    case LogWrite(k) => k < |s.calls| && s.calls[k].Using? && s.calls[k].b < |s.bufs|
    case Bwrite(k) =>
      k < |s.calls| && s.calls[k].Using? && s.calls[k].b < |s.bufs| && OnDisk(s, s.bufs[s.calls[k].b])
    case Unlock(k) => k < |s.calls| && s.calls[k].Using? && !s.calls[k].touched && s.calls[k].b < |s.bufs|
    case Drop(k) => k < |s.calls| && s.calls[k].Releasing? && s.calls[k].b < |s.bufs| && s.bufs[s.calls[k].b].refcnt > 0
  }

  /** Buffer b becomes q and call k is in phase c. */
  function With(s: Sys, b: nat, q: Buf, k: nat, c: Phase): Sys
    requires b < |s.bufs| && k < |s.calls|
  {
    s.(bufs := s.bufs[b := q], calls := s.calls[k := c])
  }

  function Next(s: Sys, l: Label): Sys
    requires Enabled(s, l)
  {
    match l
    case Ask(dev, blockno) => s.(calls := s.calls + [Asking(dev, blockno)])
    case Hit(k, b) =>
      var q := s.bufs[b];
      With(s, b, q.(refcnt := q.refcnt + 1, users := q.users + {k}), k, Waiting(b))
    case Miss(k, b) =>
      With(s, b, Buf(s.calls[k].dev, s.calls[k].blockno, false, false, 1, s.bufs[b].data, {k}, NoOne), k, Waiting(b))
    case Lock(k) =>
      var b := s.calls[k].b;
      With(s, b, s.bufs[b].(holder := Call(k)), k, Locked(b))
    case Fill(k) =>
      var b := s.calls[k].b;
      var q := s.bufs[b];
      With(s, b, if q.valid then q else q.(data := s.disk[q.blockno], valid := true), k, Using(b, false))
    case Modify(k, data) =>
      var b := s.calls[k].b;
      With(s, b, s.bufs[b].(data := data), k, Using(b, true))
        .(flat := if OnDisk(s, s.bufs[b]) && s.bufs[b].blockno < |s.flat|
                  then s.flat[s.bufs[b].blockno := data] else s.flat)
    case LogWrite(k) =>
      var b := s.calls[k].b;
      With(s, b, s.bufs[b].(dirty := true), k, Using(b, false))
    case Bwrite(k) =>
      var b := s.calls[k].b;
      With(s, b, s.bufs[b].(dirty := false, valid := true), k, Using(b, false))
        .(disk := s.disk[s.bufs[b].blockno := s.bufs[b].data])
    case Unlock(k) =>
      var b := s.calls[k].b;
      With(s, b, s.bufs[b].(holder := NoOne), k, Releasing(b))
    case Drop(k) =>
      var b := s.calls[k].b;
      var q := s.bufs[b];
      With(s, b, q.(refcnt := q.refcnt - 1, users := q.users - {k}), k, Gone)
  }

  // ---- the invariant --------------------------------------------------------------------------------

  /** Buffer b: refcnt counts its users; whoever has its sleep lock is one of them; what is not valid is not dirty. */
  ghost predicate BufOk(s: Sys, b: nat)
    requires b < |s.bufs|
  {
    var q := s.bufs[b];
    && q.refcnt == |q.users|
    && (forall k: nat :: k in q.users <==> k < |s.calls| && Refers(s.calls[k], b))
    && (q.holder.Call? ==> q.holder.k < |s.calls| && Owns(s.calls[q.holder.k], b))
    && (q.dirty ==> q.valid)
  }

  /** Call k refers to a buffer of the cache, has its sleep lock when it says so, and then reads valid data. */
  ghost predicate CallOk(s: Sys, k: nat)
    requires k < |s.calls|
  {
    var c := s.calls[k];
    && (!c.Asking? && !c.Gone? ==> c.b < |s.bufs|)
    && (c.Locked? || c.Using? ==> s.bufs[c.b].holder == Call(k))
    && (c.Using? ==> s.bufs[c.b].valid)
  }

  /** No two buffers hold the same block of a real device. */
  ghost predicate Unique(s: Sys) {
    forall i: nat, j: nat | i < |s.bufs| && j < |s.bufs| && i != j && s.bufs[i].dev != 0
      && s.bufs[i].dev == s.bufs[j].dev ::
      s.bufs[i].blockno != s.bufs[j].blockno
  }

  /** Buffer b has a copy of block n. */
  predicate Copy(s: Sys, b: nat, n: nat) {
    b < |s.bufs| && s.bufs[b].dev == 1 && s.bufs[b].blockno == n && s.bufs[b].valid
  }

  /** The copy in b may be newer than the disk. */
  predicate Newer(s: Sys, b: nat)
    requires b < |s.bufs|
  {
    || s.bufs[b].dirty
    || (s.bufs[b].holder.Call? && s.bufs[b].holder.k < |s.calls| && s.calls[s.bufs[b].holder.k] == Using(b, true))
  }

  /** Block n: every copy shows what the users see, and so does the disk unless a copy is newer. */
  ghost predicate BlockOk(s: Sys, n: nat)
    requires n < |s.disk| == |s.flat|
  {
    && (forall b: nat :: Copy(s, b, n) ==> s.bufs[b].data == s.flat[n])
    && (s.disk[n] == s.flat[n] || exists b: nat :: Copy(s, b, n) && Newer(s, b))
  }

  ghost predicate Inv(s: Sys) {
    && |s.disk| == |s.flat| && Unique(s)
    && (forall b: nat | b < |s.bufs| :: BufOk(s, b))
    && (forall k: nat | k < |s.calls| :: CallOk(s, k))
    && (forall n: nat | n < |s.disk| :: BlockOk(s, n))
  }

  /** binit: all buffers hold block 0 of no device. */
  ghost predicate Init(s: Sys) {
    && s.calls == [] && s.flat == s.disk
    && forall b: nat | b < |s.bufs| ::
         s.bufs[b].dev == 0 && !s.bufs[b].valid && !s.bufs[b].dirty && s.bufs[b].refcnt == 0
           && s.bufs[b].users == {} && s.bufs[b].holder == NoOne
  }

  lemma InitInv(s: Sys)
    requires Init(s)
    ensures Inv(s)
  {
  }

  // ---- bufs and calls ---------------------------------------------------------------------------------

  /** Call k moves from phase to phase on buffer b; the other buffers and calls stay. */
  ghost predicate Moves(s: Sys, t: Sys, k: nat, b: nat) {
    && k < |s.calls| && b < |s.bufs| && |t.calls| == |s.calls| && |t.bufs| == |s.bufs|
    && (forall i: nat | i < |s.bufs| && i != b :: t.bufs[i] == s.bufs[i])
    && (forall j: nat | j < |s.calls| && j != k :: t.calls[j] == s.calls[j])
    && (s.calls[k].Asking? || Refers(s.calls[k], b)) && (t.calls[k].Gone? || Refers(t.calls[k], b))
  }

  lemma MovesBufs(s: Sys, t: Sys, k: nat, b: nat)
    requires Inv(s) && Moves(s, t, k, b) && BufOk(t, b)
    ensures forall i: nat | i < |t.bufs| :: BufOk(t, i)
  {
    forall i: nat | i < |t.bufs| ensures BufOk(t, i) {
      assert BufOk(s, i);
      if i != b {
        forall j: nat ensures j in t.bufs[i].users <==> j < |t.calls| && Refers(t.calls[j], i) {}
      }
    }
  }

  lemma MovesCalls(s: Sys, t: Sys, k: nat, b: nat)
    requires Inv(s) && Moves(s, t, k, b) && CallOk(t, k)
    requires t.bufs[b].holder == s.bufs[b].holder || !s.bufs[b].holder.Call? || s.bufs[b].holder == Call(k)
    requires s.bufs[b].valid ==> t.bufs[b].valid || !s.bufs[b].holder.Call?
    ensures forall j: nat | j < |t.calls| :: CallOk(t, j)
  {
    forall j: nat | j < |t.calls| ensures CallOk(t, j) {
      assert CallOk(s, j);
    }
  }

  /** The buffer a step works on; not for Ask. */
  function Target(s: Sys, l: Label): nat
    requires Enabled(s, l) && !l.Ask?
  {
    if l.Hit? || l.Miss? then l.b else s.calls[l.k].b
  }

  lemma StepMoves(s: Sys, l: Label)
    requires Inv(s) && Enabled(s, l) && !l.Ask?
    ensures Moves(s, Next(s, l), l.k, Target(s, l))
  {
    hide BufOk, BlockOk, Unique;
    assert CallOk(s, l.k);
  }

  /** A call that keeps its reference. */
  predicate KeepsRef(l: Label) {
    l.Lock? || l.Fill? || l.Modify? || l.LogWrite? || l.Bwrite? || l.Unlock?
  }

  lemma KeepBuf(s: Sys, l: Label)
    requires Inv(s) && Enabled(s, l) && KeepsRef(l)
    ensures BufOk(Next(s, l), Target(s, l))
  {
    hide BlockOk, Unique;
    var t, b := Next(s, l), Target(s, l);
    assert CallOk(s, l.k) && BufOk(s, b);
    assert t.bufs[b].users == s.bufs[b].users && t.bufs[b].refcnt == s.bufs[b].refcnt;
    assert forall j: nat | j < |t.calls| :: Refers(t.calls[j], b) == Refers(s.calls[j], b);
  }

  lemma HitBuf(s: Sys, l: Label)
    requires Inv(s) && Enabled(s, l) && (l.Hit? || l.Miss?)
    ensures BufOk(Next(s, l), Target(s, l))
  {
    hide BlockOk, Unique, CallOk;
    var t := Next(s, l);
    assert BufOk(s, l.b);
    assert s.bufs[l.b].refcnt == 0 ==> s.bufs[l.b].users == {};
    forall j: nat ensures j in t.bufs[l.b].users <==> j < |t.calls| && Refers(t.calls[j], l.b) {
      assert j in s.bufs[l.b].users <==> j < |s.calls| && Refers(s.calls[j], l.b);
    }
  }

  lemma DropBuf(s: Sys, l: Label)
    requires Inv(s) && Enabled(s, l) && l.Drop?
    ensures BufOk(Next(s, l), Target(s, l))
  {
    hide BlockOk, Unique;
    var t, b := Next(s, l), s.calls[l.k].b;
    assert BufOk(s, b) && CallOk(s, l.k);
    forall j: nat ensures j in t.bufs[b].users <==> j < |t.calls| && Refers(t.calls[j], b) {
      assert j in s.bufs[b].users <==> j < |s.calls| && Refers(s.calls[j], b);
    }
  }

  lemma StepCall(s: Sys, l: Label)
    requires Inv(s) && Enabled(s, l) && !l.Ask?
    ensures var t, b := Next(s, l), Target(s, l);
            && CallOk(t, l.k)
            && (t.bufs[b].holder == s.bufs[b].holder || !s.bufs[b].holder.Call? || s.bufs[b].holder == Call(l.k))
            && (s.bufs[b].valid ==> t.bufs[b].valid || !s.bufs[b].holder.Call?)
  {
    hide BlockOk, BufOk, Unique, Refers;
    assert CallOk(s, l.k);
    if l.Miss? {
      Unheld(s, l.b);
    }
  }

  /** A buffer without references is nobody's. */
  lemma Unheld(s: Sys, b: nat)
    requires Inv(s) && b < |s.bufs| && s.bufs[b].refcnt == 0
    ensures s.bufs[b].holder == NoOne
  {
    hide BlockOk, Unique, CallOk;
    assert BufOk(s, b);
    assert s.bufs[b].users == {};
  }

  lemma StepUnique(s: Sys, l: Label)
    requires Inv(s) && Enabled(s, l)
    ensures Unique(Next(s, l))
  {
    hide BlockOk, BufOk, CallOk;
  }

  // ---- blocks -----------------------------------------------------------------------------------------

  /** No copy appears, disappears, changes or stops being newer. */
  lemma SameBlocks(s: Sys, t: Sys)
    requires Inv(s) && t.disk == s.disk && t.flat == s.flat && |t.bufs| == |s.bufs|
    requires forall b: nat, n: nat :: Copy(t, b, n) == Copy(s, b, n)
    requires forall b: nat | b < |s.bufs| && s.bufs[b].valid ::
               t.bufs[b].data == s.bufs[b].data && (Newer(s, b) ==> Newer(t, b))
    ensures forall n: nat | n < |t.disk| :: BlockOk(t, n)
  {
    hide BufOk, CallOk, Unique, Newer;
    forall n: nat | n < |t.disk| ensures BlockOk(t, n) {
      assert BlockOk(s, n);
      if s.disk[n] != s.flat[n] {
        var b: nat :| Copy(s, b, n) && Newer(s, b);
        assert Copy(t, b, n) && Newer(t, b);
      }
    }
  }

  lemma PlainBlocks(s: Sys, l: Label)
    requires Inv(s) && Enabled(s, l) && (l.Hit? || l.Lock? || l.LogWrite? || l.Unlock? || l.Drop?)
    ensures var t := Next(s, l); forall n: nat | n < |t.disk| :: BlockOk(t, n)
  {
    hide BlockOk, Unique, BufOk;
    var t := Next(s, l);
    assert CallOk(s, l.k);
    SameBlocks(s, t);
  }

  /** Recycling: the old copy goes, but the disk has the same data, since it was clean and in nobody's hands. */
  lemma MissBlocks(s: Sys, l: Label)
    requires Inv(s) && Enabled(s, l) && l.Miss?
    ensures var t := Next(s, l); forall n: nat | n < |t.disk| :: BlockOk(t, n)
  {
    hide BufOk, Unique;
    var t := Next(s, l);
    Unheld(s, l.b);
    forall n: nat | n < |t.disk| ensures BlockOk(t, n) {
      assert BlockOk(s, n);
      forall b: nat | b != l.b ensures Copy(t, b, n) == Copy(s, b, n) {}
      if s.disk[n] != s.flat[n] {
        var b: nat :| Copy(s, b, n) && Newer(s, b);
        assert Copy(t, b, n) && Newer(t, b);
      }
    }
  }

  /** The read of bread: no other buffer has the block, so the disk is what the users see. */
  lemma FillBlocks(s: Sys, l: Label)
    requires Inv(s) && Enabled(s, l) && l.Fill?
    ensures var t := Next(s, l); forall n: nat | n < |t.disk| :: BlockOk(t, n)
  {
    hide BufOk;
    var t, k, x := Next(s, l), l.k, s.calls[l.k].b;
    assert CallOk(s, k);
    forall n: nat | n < |t.disk| ensures BlockOk(t, n) {
      assert BlockOk(s, n);
      forall b: nat | b != x ensures Copy(t, b, n) == Copy(s, b, n) {}
      if s.disk[n] != s.flat[n] {
        var b: nat :| Copy(s, b, n) && Newer(s, b);
        assert Copy(t, b, n) && Newer(t, b);
      }
    }
  }

  lemma ModifyBlocks(s: Sys, l: Label)
    requires Inv(s) && Enabled(s, l) && l.Modify?
    ensures var t := Next(s, l); forall n: nat | n < |t.disk| :: BlockOk(t, n)
  {
    hide BufOk;
    var t, k, x := Next(s, l), l.k, s.calls[l.k].b;
    assert CallOk(s, k);
    forall n: nat | n < |t.disk| ensures BlockOk(t, n) {
      assert BlockOk(s, n);
      forall b: nat ensures Copy(t, b, n) == Copy(s, b, n) {}
      if Copy(s, x, n) {
        assert Copy(t, x, n) && Newer(t, x);
      } else if s.disk[n] != s.flat[n] {
        var b: nat :| Copy(s, b, n) && Newer(s, b);
        assert Copy(t, b, n) && Newer(t, b);
      }
    }
  }

  lemma BwriteBlocks(s: Sys, l: Label)
    requires Inv(s) && Enabled(s, l) && l.Bwrite?
    ensures var t := Next(s, l); forall n: nat | n < |t.disk| :: BlockOk(t, n)
  {
    hide BufOk, Unique;
    var t, k, x := Next(s, l), l.k, s.calls[l.k].b;
    assert CallOk(s, k);
    forall n: nat | n < |t.disk| ensures BlockOk(t, n) {
      assert BlockOk(s, n);
      forall b: nat ensures Copy(t, b, n) == Copy(s, b, n) {}
      if !Copy(s, x, n) && s.disk[n] != s.flat[n] {
        var b: nat :| Copy(s, b, n) && Newer(s, b);
        assert Copy(t, b, n) && Newer(t, b);
      }
    }
  }

  // ---- steps and runs ---------------------------------------------------------------------------------

  lemma AskKeeps(s: Sys, l: Label)
    requires Inv(s) && l.Ask?
    ensures Inv(Next(s, l))
  {
    var t := Next(s, l);
    forall b: nat | b < |t.bufs| ensures BufOk(t, b) {
      assert BufOk(s, b);
    }
    forall k: nat | k < |t.calls| ensures CallOk(t, k) {
      assert k < |s.calls| ==> CallOk(s, k);
    }
    SameBlocks(s, t);
  }

  lemma Step(s: Sys, l: Label)
    requires Inv(s) && Enabled(s, l)
    ensures Inv(Next(s, l))
  {
    hide BufOk, CallOk, BlockOk, Unique, Moves, Next, Enabled;
    if l.Ask? {
      AskKeeps(s, l);
    } else {
      StepRest(s, l);
    }
  }

  lemma StepRest(s: Sys, l: Label)
    requires Inv(s) && Enabled(s, l) && !l.Ask?
    ensures Inv(Next(s, l))
  {
    hide BufOk, CallOk, BlockOk, Unique, Moves;
    var t, b := Next(s, l), Target(s, l);
    StepMoves(s, l);
    StepUnique(s, l);
    StepCall(s, l);
    MovesCalls(s, t, l.k, b);
    match l {
      case Hit(_, _) => HitBuf(s, l); PlainBlocks(s, l);
      case Miss(_, _) => HitBuf(s, l); MissBlocks(s, l);
      case Fill(_) => KeepBuf(s, l); FillBlocks(s, l);
      case Modify(_, _) => KeepBuf(s, l); ModifyBlocks(s, l);
      case Bwrite(_) => KeepBuf(s, l); BwriteBlocks(s, l);
      case Lock(_) => KeepBuf(s, l); PlainBlocks(s, l);
      case LogWrite(_) => KeepBuf(s, l); PlainBlocks(s, l);
      case Unlock(_) => KeepBuf(s, l); PlainBlocks(s, l);
      case Drop(_) => DropBuf(s, l); PlainBlocks(s, l);
    }
    MovesBufs(s, t, l.k, b);
  }

  /** A buffer that is referred to or dirty keeps its identity. */
  lemma IdentityKept(s: Sys, l: Label, b: nat)
    requires Enabled(s, l) && b < |s.bufs| && (s.bufs[b].refcnt > 0 || s.bufs[b].dirty)
    ensures var t := Next(s, l);
            b < |t.bufs| && t.bufs[b].dev == s.bufs[b].dev && t.bufs[b].blockno == s.bufs[b].blockno
  {
  }

  /** A run, with the writes it makes: what block, and what data. */
  ghost predicate Reaches(s: Sys, ls: seq<Label>, t: Sys)
    decreases |ls|
  {
    if |ls| == 0 then s == t else Enabled(s, ls[0]) && Reaches(Next(s, ls[0]), ls[1..], t)
  }

  /** Through any run a buffer keeps its identity while a call holds a reference to it. */
  lemma {:induction false} IdentityHeld(s: Sys, ls: seq<Label>, t: Sys, k: nat, b: nat)
    requires Inv(s) && Reaches(s, ls, t) && k < |s.calls| && Refers(s.calls[k], b)
    requires forall j | 0 <= j < |ls| :: ls[j] != Drop(k)
    ensures k < |t.calls| && Refers(t.calls[k], b) && b < |s.bufs| && b < |t.bufs|
    ensures t.bufs[b].dev == s.bufs[b].dev && t.bufs[b].blockno == s.bufs[b].blockno
    decreases |ls|
  {
    assert CallOk(s, k) && BufOk(s, b);
    if |ls| > 0 {
      var u := Next(s, ls[0]);
      assert k in s.bufs[b].users;
      IdentityKept(s, ls[0], b);
      StillRefers(s, ls[0], k, b);
      Step(s, ls[0]);
      IdentityHeld(u, ls[1..], t, k, b);
    }
  }

  lemma StillRefers(s: Sys, l: Label, k: nat, b: nat)
    requires Enabled(s, l) && k < |s.calls| && Refers(s.calls[k], b) && l != Drop(k)
    ensures k < |Next(s, l).calls| && Refers(Next(s, l).calls[k], b)
  {
  }

  /** And while it is dirty, until it is written. */
  lemma {:induction false} IdentityPinned(s: Sys, ls: seq<Label>, t: Sys, b: nat)
    requires Reaches(s, ls, t) && b < |s.bufs| && s.bufs[b].dirty
    requires forall j | 0 <= j < |ls| :: !ls[j].Bwrite?
    ensures b < |t.bufs| && t.bufs[b].dirty
    ensures t.bufs[b].dev == s.bufs[b].dev && t.bufs[b].blockno == s.bufs[b].blockno
    decreases |ls|
  {
    if |ls| > 0 {
      IdentityKept(s, ls[0], b);
      IdentityPinned(Next(s, ls[0]), ls[1..], t, b);
    }
  }

  /** A plain array of blocks to which the run's changes are applied in order. */
  ghost function Replay(s: Sys, ls: seq<Label>, t: Sys, m: seq<Block>): (r: seq<Block>)
    requires Reaches(s, ls, t)
    ensures |r| == |m|
    decreases |ls|
  {
    if |ls| == 0 then m
    else
      var l := ls[0];
      var m2 := if l.Modify? && s.bufs[s.calls[l.k].b].dev == 1 && s.bufs[s.calls[l.k].b].blockno < |m|
                then m[s.bufs[s.calls[l.k].b].blockno := l.data] else m;
      Replay(Next(s, l), ls[1..], t, m2)
  }

  lemma {:induction false} RunKeeps(s: Sys, ls: seq<Label>, t: Sys)
    requires Inv(s) && Reaches(s, ls, t)
    ensures Inv(t) && t.flat == Replay(s, ls, t, s.flat)
    decreases |ls|
  {
    if |ls| > 0 {
      Step(s, ls[0]);
      RunKeeps(Next(s, ls[0]), ls[1..], t);
      hide BufOk, CallOk, BlockOk, Unique;
    }
  }

  /** Cache and disk together are the array m: every copy in the cache has its block of m, the disk has the blocks
      that are not in the cache, and whoever uses a buffer of block n sees m[n]. */
  ghost predicate Shows(s: Sys, m: seq<Block>) {
    && |m| == |s.disk|
    && (forall b: nat, n: nat | n < |m| && Copy(s, b, n) :: s.bufs[b].data == m[n])
    && (forall n: nat | n < |m| :: s.disk[n] == m[n] || exists b: nat :: Copy(s, b, n))
    && (forall k: nat | k < |s.calls| && s.calls[k].Using? :: s.calls[k].b < |s.bufs| && s.bufs[s.calls[k].b].valid)
  }

  lemma InvShows(s: Sys)
    requires Inv(s)
    ensures Shows(s, s.flat)
  {
    hide BufOk, Unique;
    forall n: nat | n < |s.disk| ensures s.disk[n] == s.flat[n] || exists b: nat :: Copy(s, b, n) {
      assert BlockOk(s, n);
    }
    forall b: nat, n: nat | n < |s.disk| && Copy(s, b, n) ensures s.bufs[b].data == s.flat[n] {
      assert BlockOk(s, n);
    }
    forall k: nat | k < |s.calls| && s.calls[k].Using? ensures s.calls[k].b < |s.bufs| && s.bufs[s.calls[k].b].valid {
      assert CallOk(s, k);
    }
  }

  /** Cache coherence.  In every state of every run from an empty cache no two buffers hold the same block of a device
      other than 0, and cache and disk together are the plain array of blocks to which all changes were applied in
      order. */
  lemma Coherent(s: Sys, ls: seq<Label>, t: Sys)
    requires Init(s) && Reaches(s, ls, t)
    ensures Unique(t) && Shows(t, Replay(s, ls, t, s.disk))
  {
    hide BufOk, CallOk, BlockOk, Unique, Shows;
    InitInv(s);
    RunKeeps(s, ls, t);
    InvShows(t);
  }

  // ---- what a call can do ---------------------------------------------------------------------------------

  /** A call can always go on: bget takes a buffer that has the block or, if there is none, one that is free, and waits
      for nothing but that; then it waits only for another call that has the buffer's sleep lock; and with the lock it
      can read, change, log, write and release. */
  lemma CallGoesOn(s: Sys, ls: seq<Label>, t: Sys, k: nat)
    requires Init(s) && Reaches(s, ls, t) && k < |t.calls| && !t.calls[k].Gone?
    ensures match t.calls[k]
            case Asking(dev, blockno) =>
              forall b: nat | b < |t.bufs| ::
                && (t.bufs[b].dev == dev && t.bufs[b].blockno == blockno ==> Enabled(t, Hit(k, b)))
                && (t.bufs[b].refcnt == 0 && !t.bufs[b].dirty ==>
                      Enabled(t, Miss(k, b)) || exists i: nat | i < |t.bufs| :: Enabled(t, Hit(k, i)))
            case Waiting(b) =>
              Enabled(t, Lock(k)) || exists j: nat | j < |t.calls| && j != k :: Owns(t.calls[j], b)
            case Locked(b) => b < |t.bufs| && (Enabled(t, Fill(k)) <==> t.bufs[b].valid || OnDisk(t, t.bufs[b]))
            case Using(b, touched) =>
              && b < |t.bufs| && (forall data :: Enabled(t, Modify(k, data))) && Enabled(t, LogWrite(k))
              && (OnDisk(t, t.bufs[b]) ==> Enabled(t, Bwrite(k))) && (!touched ==> Enabled(t, Unlock(k)))
            case Releasing(_) => Enabled(t, Drop(k))
            case Gone => true
  {
    InitInv(s);
    RunKeeps(s, ls, t);
    hide BlockOk, Unique, Reaches;
    assert CallOk(t, k);
    var c := t.calls[k];
    match c
    case Asking(dev, blockno) =>
      forall b: nat | b < |t.bufs| && t.bufs[b].refcnt == 0 && !t.bufs[b].dirty && !Enabled(t, Miss(k, b))
        ensures exists i: nat | i < |t.bufs| :: Enabled(t, Hit(k, i))
      {
        var i :| 0 <= i < |t.bufs| && t.bufs[i].dev == dev && t.bufs[i].blockno == blockno;
        assert Enabled(t, Hit(k, i));
      }
    case Waiting(b) => assert BufOk(t, b);
    case Releasing(b) =>
      assert BufOk(t, b) && k in t.bufs[b].users;
    case _ =>
  }

  /** After bwrite the disk has what the users see of the block, and the buffer is clean; so that once its last user has
      gone it can be recycled. */
  lemma WrittenClean(s: Sys, ls: seq<Label>, t: Sys, k: nat)
    requires Init(s) && Reaches(s, ls, t) && Enabled(t, Bwrite(k))
    ensures var b, u := t.calls[k].b, Next(t, Bwrite(k));
            && !u.bufs[b].dirty && u.calls[k] == Using(b, false)
            && u.bufs[b].blockno < |u.disk| == |u.flat|
            && u.disk[u.bufs[b].blockno] == u.flat[u.bufs[b].blockno] == u.bufs[b].data
            && Enabled(u, Unlock(k)) && Enabled(Next(u, Unlock(k)), Drop(k))
            && var v := Next(Next(u, Unlock(k)), Drop(k));
               !v.bufs[b].dirty && v.bufs[b].refcnt == t.bufs[b].refcnt - 1
  {
    InitInv(s);
    RunKeeps(s, ls, t);
    hide Unique, Reaches;
    assert CallOk(t, k);
    var b := t.calls[k].b;
    assert BufOk(t, b) && k in t.bufs[b].users;
    assert BlockOk(t, t.bufs[b].blockno) && Copy(t, b, t.bufs[b].blockno);
  }
}
