/** What the buffers hold while log.c runs: `cache` is what bread returns for each block. */
module LogCache {
  import opened Blocks
  import opened LogPlan
  import opened GroupCommit

  /** The cache agrees with the disk on the log area and on every block that is not logged. */
  ghost predicate Coherent(g: Geometry, lh: seq<nat>, disk: Disk, cache: Disk)
    requires g.Valid()
  {
    && |disk| == |cache| == g.total
    && (forall b | g.start <= b < g.start + g.size :: cache[b] == disk[b])
    && (forall b: nat | g.Home(b) && b !in lh :: cache[b] == disk[b])
  }

  /** Writing a block of the log area. */
  lemma WriteArea(g: Geometry, lh: seq<nat>, disk: Disk, cache: Disk, cache0: Disk, b: nat, data: Block)
    requires g.Valid() && Coherent(g, lh, disk, cache) && SameHome(g, cache, cache0) && g.start <= b < g.start + g.size
    ensures Coherent(g, lh, disk[b := data], cache[b := data]) && SameHome(g, cache[b := data], cache0)
  {
  }

  /** Writing a logged block home. */
  lemma WriteHome(g: Geometry, lh: seq<nat>, disk: Disk, cache: Disk, b: nat, data: Block)
    requires g.Valid() && Coherent(g, lh, disk, cache) && b < g.total
    ensures Coherent(g, lh, disk[b := data], cache[b := data])
  {
  }

  /** The first k logged blocks have been written home. */
  ghost predicate HomeDone(lh: seq<nat>, disk: Disk, cache: Disk, k: nat) {
    k <= |lh| && forall i | 0 <= i < k :: lh[i] < |disk| && lh[i] < |cache| && cache[lh[i]] == disk[lh[i]]
  }

  lemma HomeStep(g: Geometry, lh: seq<nat>, disk: Disk, cache: Disk, k: nat, data: Block)
    requires g.Listed(lh) && |disk| == |cache| == g.total && k < |lh| && HomeDone(lh, disk, cache, k)
    ensures HomeDone(lh, disk[lh[k] := data], cache[lh[k] := data], k + 1)
  {
  }

  /** With every logged block home, the log can be emptied. */
  lemma AllHome(g: Geometry, lh: seq<nat>, disk: Disk, cache: Disk)
    requires g.Valid() && Coherent(g, lh, disk, cache) && HomeDone(lh, disk, cache, |lh|)
    ensures Coherent(g, [], disk, cache)
  {
  }
}

/** The code of src/log.c that touches the disk, with its loops: `disk` is what is on the medium and
    `trace` records every state it has been in. */
module LogDevice {
  import opened Blocks
  import opened LogPlan
  import opened GroupCommit
  import opened LogCache

  /** The states the disk has been in, one for each block write, latest last. */
  datatype Trace = Boot | Then(before: Trace, state: Disk)

  /** t, and then the first k states of a commit of lh that starts on d. */
  ghost function CommitTrace(t: Trace, g: Geometry, lh: seq<nat>, cache: Disk, d: Disk, k: nat): Trace
    requires g.Valid() && g.Listed(lh) && |cache| == |d| == g.total && k <= CommitLength(lh)
  {
    if k == 0 then t else Then(CommitTrace(t, g, lh, cache, d, k - 1), CommitDisk(g, lh, cache, d, k))
  }

  /** t, and then the first k states of a recovery that starts on d. */
  ghost function RecoverTrace(t: Trace, g: Geometry, d: Disk, k: nat): Trace
    requires HeadOk(g, d) && k <= RecoverLength(g, d)
  {
    if k == 0 then t else Then(RecoverTrace(t, g, d, k - 1), RecoverDisk(g, d, k))
  }

  /** After its header write a commit goes through the states of a recovery. */
  lemma {:induction false} CommitThenRecover(t: Trace, g: Geometry, lh: seq<nat>, cache: Disk, d: Disk, k: nat)
    requires g.Valid() && g.Listed(lh) && |cache| == |d| == g.total && lh != [] && k <= |lh| + 1
    ensures CommitTrace(t, g, lh, cache, d, |lh| + 1 + k)
            == RecoverTrace(CommitTrace(t, g, lh, cache, d, |lh| + 1), g, CommittedDisk(g, lh, cache, d), k)
  {
    hide HeadBlock, ReadHead, LogDisk, InstallDisk;
    if k > 0 {
      CommitThenRecover(t, g, lh, cache, d, k - 1);
    }
  }

  lemma HeaderState(g: Geometry, lh: seq<nat>, cache: Disk, d: Disk)
    requires g.Valid() && g.Listed(lh) && |cache| == |d| == g.total && lh != []
    ensures CommitDisk(g, lh, cache, d, |lh| + 1) == CommittedDisk(g, lh, cache, d)
  {
  }

  class Log {
    const g: Geometry
    var disk: Disk
    var cache: Disk
    var lh: seq<nat>            // log.lh.block[0..log.lh.n)
    ghost var trace: Trace

    ghost predicate Valid()
      reads this
    {
      g.Valid() && g.Listed(lh) && Coherent(g, lh, disk, cache)
    }

    constructor (g: Geometry, d: Disk)
      requires g.Valid() && |d| == g.total
      ensures Valid() && this.g == g && disk == cache == d && lh == [] && trace == Trace.Boot
    {
      this.g, disk, cache, lh, trace := g, d, d, [], Trace.Boot;
    }

    method Bwrite(b: nat, data: Block)
      requires b < |disk| == |cache|
      modifies this`disk, this`cache, this`trace
      ensures disk == old(disk)[b := data] && cache == old(cache)[b := data]
      ensures trace == Then(old(trace), disk)
    {
      disk, cache := disk[b := data], cache[b := data];
      trace := Then(trace, disk);
    }

    /** Copy the modified blocks from the cache to the log. */
    method WriteLog()
      requires Valid()
      modifies this`disk, this`cache, this`trace
      ensures Valid() && SameHome(g, cache, old(cache))
      ensures disk == LogDisk(g, lh, old(cache), old(disk), |lh|)
      ensures trace == CommitTrace(old(trace), g, lh, old(cache), old(disk), |lh|)
    {
      hide HeadBlock, LogPlan.ReadHead, RecoverDisk, Coherent;
      assert |disk| == |cache| == g.total by { CoherentSize(); }
      for tail := 0 to |lh|
        invariant Valid() && SameHome(g, cache, old(cache))
        invariant disk == LogDisk(g, lh, old(cache), old(disk), tail)
        invariant trace == CommitTrace(old(trace), g, lh, old(cache), old(disk), tail)
      {
        WriteArea(g, lh, disk, cache, old(cache), g.start + tail + 1, cache[lh[tail]]);
        Bwrite(g.start + tail + 1, cache[lh[tail]]);
      }
    }

    lemma CoherentSize()
      requires Valid()
      ensures |disk| == |cache| == g.total
      ensures forall b | g.start <= b < g.start + g.size :: cache[b] == disk[b]
    {
    }

    /** Write the in-memory header over the header block. */
    method WriteHead()
      requires Valid()
      modifies this`disk, this`cache, this`trace
      ensures Valid() && SameHome(g, cache, old(cache))
      ensures disk == old(disk)[g.start := HeadBlock(old(disk)[g.start], lh)]
      ensures trace == Then(old(trace), disk)
    {
      hide Coherent, SameHome, PutWord, WordAt;
      CoherentSize();
      var hb := PutWord(cache[g.start], 0, |lh|);
      for i := 0 to |lh|
        invariant hb == PutBlocks(PutWord(cache[g.start], 0, |lh|), lh, i)
      {
        hb := PutWord(hb, i + 1, lh[i]);
      }
      SameHomeSelf(g, cache);
      WriteArea(g, lh, disk, cache, cache, g.start, hb);
      Bwrite(g.start, hb);
    }

    /** Copy the logged blocks from the log to their home locations. */
    method InstallTrans()
      requires Valid() && HeadOk(g, disk) && LogPlan.ReadHead(disk[g.start]) == lh
      modifies this`disk, this`cache, this`trace
      ensures Valid() && HomeDone(lh, disk, cache, |lh|)
      ensures disk == InstallDisk(g, lh, old(disk), |lh|)
      ensures trace == RecoverTrace(old(trace), g, old(disk), |lh|)
    {
      hide HeadBlock, LogPlan.ReadHead, Coherent, HomeDone;
      assert HomeDone(lh, disk, cache, 0) by { NoneHome(lh, disk, cache); }
      for tail := 0 to |lh|
        invariant Valid() && HomeDone(lh, disk, cache, tail)
        invariant disk == InstallDisk(g, lh, old(disk), tail)
        invariant trace == RecoverTrace(old(trace), g, old(disk), tail)
      {
        CoherentSize();
        LogAreaKept(g, lh, old(disk), tail, g.start + tail + 1);
        HomeStep(g, lh, disk, cache, tail, cache[g.start + tail + 1]);
        WriteHome(g, lh, disk, cache, lh[tail], cache[g.start + tail + 1]);
        Bwrite(lh[tail], cache[g.start + tail + 1]);
      }
    }

    /** The common end of commit() and recover_from_log(): install the header's blocks, then erase it. */
    method InstallAndErase()
      requires Valid() && HeadOk(g, disk) && LogPlan.ReadHead(disk[g.start]) == lh
      modifies this`disk, this`cache, this`lh, this`trace
      ensures Valid() && lh == []
      ensures disk == Recover(g, old(disk))
      ensures trace == RecoverTrace(old(trace), g, old(disk), RecoverLength(g, old(disk)))
    {
      hide HeadBlock, LogPlan.ReadHead, InstallDisk, Coherent, HomeDone, SameHome;
      InstallTrans();
      LogAreaKept(g, lh, old(disk), |lh|, g.start);
      AllHome(g, lh, disk, cache);
      lh := [];
      WriteHead();
    }

    /** commit(): the disk goes, write by write, through the states CommitDisk(1), CommitDisk(2), ... that
        the crash theorems speak of. */
    method Commit()
      requires Valid()
      modifies this`disk, this`cache, this`lh, this`trace
      ensures Valid() && lh == []
      ensures disk == CommitDisk(g, old(lh), old(cache), old(disk), CommitLength(old(lh)))
      ensures trace == CommitTrace(old(trace), g, old(lh), old(cache), old(disk), CommitLength(old(lh)))
    {
      hide HeadBlock, LogPlan.ReadHead, InstallDisk, RecoverDisk, Coherent, SameHome, LogDisk;
      CoherentSize();
      if |lh| > 0 {
        CommitThenRecover(trace, g, lh, cache, disk, |lh| + 1);
        HeaderState(g, lh, cache, disk);
        WriteLog();
        WriteHead();
        assert disk == CommittedDisk(g, lh, old(cache), old(disk));
        InstallAndErase();
      }
    }

    /** recover_from_log(): whatever the in-memory header, the disk becomes Recover(disk), by way of the
        states RecoverDisk(1), RecoverDisk(2), ... */
    method RecoverFromLog()
      requires HeadOk(g, disk) && cache == disk
      modifies this`disk, this`cache, this`lh, this`trace
      ensures Valid() && lh == []
      ensures disk == Recover(g, old(disk))
      ensures trace == RecoverTrace(old(trace), g, old(disk), RecoverLength(g, old(disk)))
    {
      hide Coherent;
      ReadHead();
      InstallAndErase();
    }

    /** Load the header the disk holds. */
    method ReadHead()
      requires HeadOk(g, disk) && cache == disk
      modifies this`lh
      ensures lh == LogPlan.ReadHead(disk[g.start])
      ensures Valid()
    {
      var n := WordAt(cache[g.start], 0);
      lh := [];
      for i := 0 to n
        invariant n < WORDS && lh == ReadEntries(cache[g.start], i)
      {
        lh := lh + [WordAt(cache[g.start], i + 1)];
      }
    }

    /** log_write: remember the block in the header, once, and keep its new contents in the cache.  The
        two guards of the panic and the caller's operation are as in the step LogWrite. */
    method LogWrite(b: nat, data: Block)
      requires Valid() && g.Home(b) && |lh| < g.cap && |lh| < g.size - 1
      modifies this`cache, this`lh
      ensures Valid()
      ensures lh == Absorb(old(lh), b) && cache == old(cache)[b := data]
    {
      var i := 0;
      while i < |lh| && lh[i] != b
        invariant i <= |lh| && b !in lh[..i]
      {
        i := i + 1;
      }
      if i == |lh| {
        lh := lh + [b];
      }
      cache := cache[b := data];
    }
  }

  lemma {:induction false} LogAreaKept(g: Geometry, lh: seq<nat>, d: Disk, k: nat, b: nat)
    requires g.Valid() && g.Listed(lh) && |d| == g.total && k <= |lh| && g.start <= b < g.start + g.size
    ensures InstallDisk(g, lh, d, k)[b] == d[b]
  {
    if k > 0 { LogAreaKept(g, lh, d, k - 1, b); }
  }

  lemma SameHomeSelf(g: Geometry, d: Disk)
    requires |d| == g.total
    ensures SameHome(g, d, d)
  {
  }

  lemma NoneHome(lh: seq<nat>, disk: Disk, cache: Disk)
    ensures HomeDone(lh, disk, cache, 0)
  {
  }
}
