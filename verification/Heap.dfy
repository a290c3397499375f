/** The storage allocator of src/ulib.c (section 8.7 of Kernighan and Ritchie, The C Programming Language):
    a circular free list in address order, split on malloc and coalesced on both sides on free.  Addresses
    count header-sized units; `base` is at address 0, below the heap. */
module HeapRuns {
  import opened Seqs

  const BASE: nat := 0
  const UINT := 0x1_0000_0000
  const HEADER := 8           // sizeof(Header)
  const MIN_UNITS := 4096     // the least that morecore asks for

  datatype Option<T> = None | Some(value: T)

  /** A run of units: header and body together. */
  datatype Run = Run(addr: nat, size: nat)

  predicate Apart(a: Run, b: Run) {
    a.addr + a.size <= b.addr || b.addr + b.size <= a.addr
  }

  function Total(rs: seq<Run>): nat {
    if rs == [] then 0 else Total(rs[..|rs| - 1]) + rs[|rs| - 1].size
  }

  lemma {:induction false} TotalRemove(rs: seq<Run>, k: nat)
    requires k < |rs|
    ensures Total(RemoveAt(rs, k)) == Total(rs) - rs[k].size
  {
    var n := |rs| - 1;
    if k == n {
      assert RemoveAt(rs, k) == rs[..n];
    } else {
      TotalRemove(rs[..n], k);
      assert RemoveAt(rs, k)[..n - 1] == RemoveAt(rs[..n], k);
    }
  }

  lemma {:induction false} TotalInsert(rs: seq<Run>, k: nat, r: Run)
    requires k <= |rs|
    ensures Total(InsertAt(rs, k, r)) == Total(rs) + r.size
  {
    hide Total;
    assert InsertAt(rs, k, r)[k] == r && RemoveAt(InsertAt(rs, k, r), k) == rs;
    TotalRemove(InsertAt(rs, k, r), k);
  }

  lemma {:induction false} TotalUpdate(rs: seq<Run>, k: nat, r: Run)
    requires k < |rs|
    ensures Total(rs[k := r]) == Total(rs) - rs[k].size + r.size
  {
    hide Total;
    assert RemoveAt(rs[k := r], k) == RemoveAt(rs, k);
    TotalRemove(rs, k);
    TotalRemove(rs[k := r], k);
  }

  // ---- the free list ----------------------------------------------------------------------------

  /** The free list in address order, starting at base.  No two free runs overlap, nor touch. */
  ghost predicate Ordered(fl: seq<Run>) {
    && |fl| >= 1 && fl[0] == Run(BASE, 0)
    && (forall i | 1 <= i < |fl| :: fl[i].size >= 1)
    && (forall i, j | 0 <= i < j < |fl| :: fl[i].addr + fl[i].size < fl[j].addr)
  }

  /** The list's links and sizes are in the headers: one ring through every free run. */
  ghost predicate Linked(fl: seq<Run>, next: map<nat, nat>, size: map<nat, nat>) {
    && (forall i | 0 <= i < |fl| :: fl[i].addr in next && fl[i].addr in size && size[fl[i].addr] == fl[i].size)
    && (forall i, j | 0 <= i < |fl| && 0 <= j < |fl| && (j == i + 1 || (i == |fl| - 1 && j == 0)) ::
          next[fl[i].addr] == fl[j].addr)
  }

  /** b lies between the free runs t and t + 1, touching or not. */
  ghost predicate Between(fl: seq<Run>, b: Run, t: nat) {
    && t < |fl| && fl[t].addr + fl[t].size <= b.addr && BASE < b.addr && b.size >= 1
    && (t + 1 < |fl| ==> b.addr + b.size <= fl[t + 1].addr)
  }

  /** Between, and not touching the run above. */
  ghost predicate Clear(fl: seq<Run>, b: Run, t: nat) {
    Between(fl, b, t) && (t + 1 < |fl| ==> b.addr + b.size < fl[t + 1].addr)
  }

  /** The run to be put back, merged with the free run above it when the two touch ... */
  function Upper(fl: seq<Run>, b: Run, t: nat): Run
    requires t < |fl|
  {
    if t + 1 < |fl| && b.addr + b.size == fl[t + 1].addr then Run(b.addr, b.size + fl[t + 1].size) else b
  }

  /** ... and the list without that run. */
  function Rest(fl: seq<Run>, b: Run, t: nat): seq<Run>
    requires t < |fl|
    ensures t < |Rest(fl, b, t)|
  {
    if t + 1 < |fl| && b.addr + b.size == fl[t + 1].addr then RemoveAt(fl, t + 1) else fl
  }

  /** Then the run is merged with the one below when they touch, or else becomes a run of its own. */
  function Place(fl: seq<Run>, c: Run, t: nat): seq<Run>
    requires t < |fl|
  {
    if fl[t].addr + fl[t].size == c.addr then fl[t := Run(fl[t].addr, fl[t].size + c.size)]
    else InsertAt(fl, t + 1, c)
  }

  function Insert(fl: seq<Run>, b: Run, t: nat): seq<Run>
    requires t < |fl|
  {
    Place(Rest(fl, b, t), Upper(fl, b, t), t)
  }

  lemma RestOrdered(fl: seq<Run>, b: Run, t: nat)
    requires Ordered(fl) && Between(fl, b, t)
    ensures Ordered(Rest(fl, b, t))
  {
    hide RemoveAt;
  }

  /** After merging upwards the run no longer touches the one above. */
  lemma RestBetween(fl: seq<Run>, b: Run, t: nat)
    requires Ordered(fl) && Between(fl, b, t)
    ensures Clear(Rest(fl, b, t), Upper(fl, b, t), t)
  {
  }

  lemma PlaceOrdered(fl: seq<Run>, c: Run, t: nat)
    requires Ordered(fl) && Clear(fl, c, t)
    ensures Ordered(Place(fl, c, t))
  {
    hide InsertAt;
  }

  lemma RestTotal(fl: seq<Run>, b: Run, t: nat)
    requires t < |fl|
    ensures Total(Rest(fl, b, t)) + Upper(fl, b, t).size == Total(fl) + b.size
  {
    hide Total, RemoveAt, InsertAt;
    if t + 1 < |fl| && b.addr + b.size == fl[t + 1].addr {
      TotalRemove(fl, t + 1);
    }
  }

  lemma PlaceTotal(fl: seq<Run>, c: Run, t: nat)
    requires t < |fl|
    ensures Total(Place(fl, c, t)) == Total(fl) + c.size
  {
    hide Total, RemoveAt, InsertAt;
    if fl[t].addr + fl[t].size == c.addr {
      TotalUpdate(fl, t, Run(fl[t].addr, fl[t].size + c.size));
    } else {
      TotalInsert(fl, t + 1, c);
    }
  }

  /** Coalescing keeps the list ordered with no two runs touching, and loses no unit. */
  lemma InsertOrdered(fl: seq<Run>, b: Run, t: nat)
    requires Ordered(fl) && Between(fl, b, t)
    ensures Ordered(Insert(fl, b, t))
    ensures Total(Insert(fl, b, t)) == Total(fl) + b.size
  {
    RestOrdered(fl, b, t);
    RestBetween(fl, b, t);
    PlaceOrdered(Rest(fl, b, t), Upper(fl, b, t), t);
    RestTotal(fl, b, t);
    PlaceTotal(Rest(fl, b, t), Upper(fl, b, t), t);
  }

  /** A run apart from every free run and from b is apart from every run of the new list. */
  lemma InsertApart(fl: seq<Run>, b: Run, t: nat, x: Run)
    requires Ordered(fl) && Between(fl, b, t)
    requires Apart(x, b) && x.size >= 1 && (forall i | 0 <= i < |fl| :: Apart(x, fl[i]))
    ensures forall i | 0 <= i < |Insert(fl, b, t)| :: Apart(x, Insert(fl, b, t)[i])
  {
    hide InsertAt, RemoveAt;
  }

  /** Unlinking the run above t. */
  lemma UnlinkLinked(fl: seq<Run>, next: map<nat, nat>, size: map<nat, nat>, t: nat)
    requires Ordered(fl) && Linked(fl, next, size) && t + 1 < |fl|
    ensures Linked(RemoveAt(fl, t + 1), next[fl[t].addr := next[fl[t + 1].addr]], size)
  {
    hide RemoveAt;
  }

  /** Linking c in after t. */
  lemma LinkLinked(fl: seq<Run>, next: map<nat, nat>, size: map<nat, nat>, c: Run, t: nat)
    requires t < |fl| && Linked(fl, next, size)
    requires forall i | 0 <= i < |fl| :: fl[i].addr != c.addr
    requires forall i, j | 0 <= i < j < |fl| :: fl[i].addr != fl[j].addr
    ensures Linked(InsertAt(fl, t + 1, c), next[c.addr := next[fl[t].addr]][fl[t].addr := c.addr],
              size[c.addr := c.size])
  {
  }

  /** Growing the run t. */
  lemma GrowLinked(fl: seq<Run>, next: map<nat, nat>, size: map<nat, nat>, t: nat, n: nat)
    requires Ordered(fl) && Linked(fl, next, size) && t < |fl|
    ensures Linked(fl[t := Run(fl[t].addr, n)], next, size[fl[t].addr := n])
  {
  }

  lemma LinkedSame(fl: seq<Run>, next: map<nat, nat>, size: map<nat, nat>, next': map<nat, nat>, size': map<nat, nat>)
    requires Linked(fl, next, size)
    requires forall i | 0 <= i < |fl| :: fl[i].addr in next' && next'[fl[i].addr] == next[fl[i].addr]
    requires forall i | 0 <= i < |fl| :: fl[i].addr in size' && size'[fl[i].addr] == size[fl[i].addr]
    ensures Linked(fl, next', size')
  {
  }

  /** What bp's link becomes when it is merged with the run above, or not. */
  function UpLink(fl: seq<Run>, next: map<nat, nat>, b: Run, t: nat): nat
    requires t < |fl| && fl[t].addr in next && next[fl[t].addr] in next
  {
    if b.addr + b.size == next[fl[t].addr] then next[next[fl[t].addr]] else next[fl[t].addr]
  }

  lemma UpLinked(fl: seq<Run>, next: map<nat, nat>, size: map<nat, nat>, b: Run, t: nat)
    requires Ordered(fl) && Linked(fl, next, size) && Between(fl, b, t)
    ensures next[fl[t].addr] in next
    ensures b.addr + b.size == next[fl[t].addr] <==> t + 1 < |fl| && b.addr + b.size == fl[t + 1].addr
    ensures Linked(Rest(fl, b, t), next[fl[t].addr := UpLink(fl, next, b, t)], size)
  {
    if t + 1 < |fl| {
      assert next[fl[t].addr] == fl[t + 1].addr;
      if b.addr + b.size == fl[t + 1].addr { UnlinkLinked(fl, next, size, t); }
    } else {
      assert next[fl[t].addr] == fl[0].addr;
    }
    assert next[fl[t].addr := next[fl[t].addr]] == next;
  }

  lemma NotListed(fl: seq<Run>, b: Run, t: nat)
    requires Ordered(fl) && Between(fl, b, t)
    ensures forall i | 0 <= i < |fl| :: fl[i].addr != b.addr
  {
  }

  /** Merging c with the run below it, or linking it in. */
  lemma DownLinked(fl: seq<Run>, next: map<nat, nat>, size: map<nat, nat>, c: Run, t: nat)
    requires Ordered(fl) && Linked(fl, next, size) && Clear(fl, c, t)
    ensures var p := fl[t].addr;
            if p + fl[t].size == c.addr
            then Linked(Place(fl, c, t), next[c.addr := next[p]], size[c.addr := c.size][p := fl[t].size + c.size])
            else Linked(Place(fl, c, t), next[c.addr := next[p]][p := c.addr], size[c.addr := c.size])
  {
    NotListed(fl, c, t);
    var p := fl[t].addr;
    if p + fl[t].size == c.addr {
      var n := fl[t].size + c.size;
      GrowLinked(fl, next, size, t, n);
      LinkedSame(fl[t := Run(p, n)], next, size[p := n], next[c.addr := next[p]], size[c.addr := c.size][p := n]);
    } else {
      LinkLinked(fl, next, size, c, t);
    }
  }

  /** The links and the sizes in the headers after both merges. */
  function FreeNext(fl: seq<Run>, next: map<nat, nat>, b: Run, t: nat): map<nat, nat>
    requires t < |fl| && fl[t].addr in next && next[fl[t].addr] in next
  {
    var link := UpLink(fl, next, b, t);
    next[b.addr := link][fl[t].addr := if fl[t].addr + fl[t].size == b.addr then link else b.addr]
  }

  function FreeSize(fl: seq<Run>, size: map<nat, nat>, b: Run, t: nat): map<nat, nat>
    requires t < |fl|
  {
    var c := Upper(fl, b, t);
    var size' := size[b.addr := c.size];
    if fl[t].addr + fl[t].size == b.addr then size'[fl[t].addr := fl[t].size + c.size] else size'
  }

  /** They hold the new free list. */
  lemma CoalesceLinked(fl: seq<Run>, next: map<nat, nat>, size: map<nat, nat>, b: Run, t: nat)
    requires Ordered(fl) && Linked(fl, next, size) && Between(fl, b, t)
    ensures next[fl[t].addr] in next
    ensures Linked(Insert(fl, b, t), FreeNext(fl, next, b, t), FreeSize(fl, size, b, t))
  {
    UpLinked(fl, next, size, b, t);
    RestOrdered(fl, b, t);
    RestBetween(fl, b, t);
    var p, c, link := fl[t].addr, Upper(fl, b, t), UpLink(fl, next, b, t);
    assert Rest(fl, b, t)[t] == fl[t];
    DownLinked(Rest(fl, b, t), next[p := link], size, c, t);
    assert next[p := link][b.addr := link] == next[b.addr := link][p := link];
    assert next[p := link][b.addr := link][p := b.addr] == next[b.addr := link][p := b.addr];
  }

  lemma InsertKeepsSlot(fl: seq<Run>, b: Run, t: nat)
    requires t < |fl|
    ensures t < |Insert(fl, b, t)| && Insert(fl, b, t)[t].addr == fl[t].addr
  {
  }

  // ---- the runs in use ---------------------------------------------------------------------------

  /** Runs in use and free runs are pairwise disjoint. */
  ghost predicate Disjoint(fl: seq<Run>, live: seq<Run>) {
    && (forall k | 0 <= k < |live| :: live[k].size >= 1 && BASE < live[k].addr)
    && (forall k, i | 0 <= k < |live| && 0 <= i < |fl| :: Apart(live[k], fl[i]))
    && (forall k, m | 0 <= k < m < |live| :: Apart(live[k], live[m]))
  }

  /** Each run in use has its size in its header. */
  ghost predicate Headers(live: seq<Run>, size: map<nat, nat>) {
    forall k | 0 <= k < |live| :: live[k].addr in size && size[live[k].addr] == live[k].size
  }

  ghost function Units(a: nat, n: nat): (s: set<nat>)
    ensures |s| == n
    ensures forall u: nat :: u in s <==> a <= u < a + n
  {
    if n == 0 then {} else Units(a, n - 1) + {a + n - 1}
  }

  ghost predicate Inside(rs: seq<Run>, core: set<nat>) {
    forall i | 0 <= i < |rs| :: Units(rs[i].addr, rs[i].size) <= core
  }

  /** All memory obtained from sbrk is in exactly one run: the runs are disjoint, lie inside it, and have as
      many units between them. */
  ghost predicate Partition(fl: seq<Run>, live: seq<Run>, core: set<nat>) {
    && Ordered(fl) && Disjoint(fl, live) && Inside(fl, core) && Inside(live, core)
    && Total(fl) + Total(live) == |core|
  }

  /** Putting back a run in use keeps the partition. */
  lemma FreePartition(fl: seq<Run>, live: seq<Run>, core: set<nat>, k: nat, t: nat)
    requires Partition(fl, live, core) && k < |live| && Between(fl, live[k], t)
    ensures Partition(Insert(fl, live[k], t), RemoveAt(live, k), core)
  {
    InsertOrdered(fl, live[k], t);
    TotalRemove(live, k);
    FreeDisjoint(fl, live, k, t);
    InsertInside(fl, live[k], t, core);
  }

  lemma FreeDisjoint(fl: seq<Run>, live: seq<Run>, k: nat, t: nat)
    requires Ordered(fl) && Disjoint(fl, live) && k < |live| && Between(fl, live[k], t)
    ensures Disjoint(Insert(fl, live[k], t), RemoveAt(live, k))
  {
    hide Insert, RemoveAt;
    var r, l := Insert(fl, live[k], t), RemoveAt(live, k);
    forall m | 0 <= m < |l|
      ensures forall i | 0 <= i < |r| :: Apart(l[m], r[i])
    {
      InsertApart(fl, live[k], t, l[m]);
    }
  }

  lemma InsertInside(fl: seq<Run>, b: Run, t: nat, core: set<nat>)
    requires Ordered(fl) && Between(fl, b, t) && Inside(fl, core) && Inside([b], core)
    ensures Inside(Insert(fl, b, t), core)
  {
    hide InsertAt, RemoveAt, Units;
    assert [b][0] == b;
  }

  /** A run apart from all free runs lies between two of them. */
  lemma {:induction false} Slot(fl: seq<Run>, b: Run, n: nat) returns (t: nat)
    requires Ordered(fl) && 1 <= n <= |fl| && b.size >= 1 && BASE < b.addr
    requires forall i | 0 <= i < |fl| :: Apart(b, fl[i])
    requires n < |fl| ==> b.addr + b.size <= fl[n].addr
    ensures Between(fl, b, t)
  {
    if n == 1 || fl[n - 1].addr + fl[n - 1].size <= b.addr {
      t := n - 1;
    } else {
      t := Slot(fl, b, n - 1);
    }
  }

  /** Taking n units off the end of the free run i, or the whole run when it is just that big. */
  function Take(fl: seq<Run>, i: nat, n: nat): seq<Run>
    requires i < |fl| && n <= fl[i].size
  {
    if fl[i].size == n then RemoveAt(fl, i) else fl[i := Run(fl[i].addr, fl[i].size - n)]
  }

  function Taken(fl: seq<Run>, i: nat, n: nat): Run
    requires i < |fl| && n <= fl[i].size
  {
    Run(fl[i].addr + (fl[i].size - n), n)
  }

  lemma TakeOrdered(fl: seq<Run>, i: nat, n: nat)
    requires Ordered(fl) && 1 <= i < |fl| && 1 <= n <= fl[i].size
    ensures Ordered(Take(fl, i, n))
  {
    hide RemoveAt;
  }

  lemma TakeTotal(fl: seq<Run>, i: nat, n: nat)
    requires i < |fl| && n <= fl[i].size
    ensures Total(Take(fl, i, n)) == Total(fl) - n
  {
    hide Total, RemoveAt, InsertAt;
    if fl[i].size == n {
      TotalRemove(fl, i);
    } else {
      TotalUpdate(fl, i, Run(fl[i].addr, fl[i].size - n));
    }
  }

  lemma TakeDisjoint(fl: seq<Run>, live: seq<Run>, i: nat, n: nat)
    requires Ordered(fl) && Disjoint(fl, live) && 1 <= i < |fl| && 1 <= n <= fl[i].size
    ensures Disjoint(Take(fl, i, n), live + [Taken(fl, i, n)])
  {
    hide RemoveAt;
  }

  lemma TakeInside(fl: seq<Run>, i: nat, n: nat, core: set<nat>)
    requires Inside(fl, core) && i < |fl| && n <= fl[i].size
    ensures Inside(Take(fl, i, n), core) && Inside([Taken(fl, i, n)], core)
  {
    hide Units, RemoveAt;
  }

  lemma InsideConcat(a: seq<Run>, b: Run, core: set<nat>)
    requires Inside(a, core) && Inside([b], core)
    ensures Inside(a + [b], core)
  {
  }

  /** malloc's split keeps the partition. */
  lemma TakePartition(fl: seq<Run>, live: seq<Run>, core: set<nat>, i: nat, n: nat)
    requires Partition(fl, live, core) && 1 <= i < |fl| && 1 <= n <= fl[i].size
    ensures Partition(Take(fl, i, n), live + [Taken(fl, i, n)], core)
  {
    TakeOrdered(fl, i, n);
    TakeTotal(fl, i, n);
    TakeDisjoint(fl, live, i, n);
    TakeInside(fl, i, n, core);
    InsideConcat(live, Taken(fl, i, n), core);
    TotalInsert(live, |live|, Taken(fl, i, n));
    assert live + [Taken(fl, i, n)] == InsertAt(live, |live|, Taken(fl, i, n));
  }

  /** The run taken off has a header that is not in the list. */
  lemma TakenNotListed(fl: seq<Run>, i: nat, n: nat)
    requires Ordered(fl) && 1 <= i < |fl| && 1 <= n < fl[i].size
    ensures forall j | 0 <= j < |fl| :: fl[j].addr != Taken(fl, i, n).addr
  {
  }

  /** The headers after a run, or its end, is taken from the list. */
  lemma TakeLinked(fl: seq<Run>, next: map<nat, nat>, size: map<nat, nat>, i: nat, n: nat)
    requires Ordered(fl) && Linked(fl, next, size) && 1 <= i < |fl| && 1 <= n <= fl[i].size
    ensures fl[i].size == n ==>
              Linked(Take(fl, i, n), next[fl[i - 1].addr := next[fl[i].addr]], size)
    ensures fl[i].size > n ==>
              Linked(Take(fl, i, n), next, size[fl[i].addr := fl[i].size - n][Taken(fl, i, n).addr := n])
  {
    if fl[i].size == n {
      UnlinkLinked(fl, next, size, i - 1);
    } else {
      var size1 := size[fl[i].addr := fl[i].size - n];
      GrowLinked(fl, next, size, i, fl[i].size - n);
      TakenNotListed(fl, i, n);
      LinkedSame(Take(fl, i, n), next, size1, next, size1[Taken(fl, i, n).addr := n]);
    }
  }

  lemma TakeKeepsPrev(fl: seq<Run>, i: nat, n: nat)
    requires 1 <= i < |fl| && n <= fl[i].size
    ensures i - 1 < |Take(fl, i, n)| && Take(fl, i, n)[i - 1] == fl[i - 1]
  {
  }

  /** Taking a run leaves the headers of the others and gives it its own. */
  lemma TakeHeaders(fl: seq<Run>, live: seq<Run>, size: map<nat, nat>, i: nat, n: nat)
    requires Disjoint(fl, live) && Headers(live, size) && i < |fl| && 1 <= n <= fl[i].size
    requires fl[i].addr in size && size[fl[i].addr] == fl[i].size
    ensures fl[i].size == n ==> Headers(live + [Taken(fl, i, n)], size)
    ensures fl[i].size > n ==>
              Headers(live + [Taken(fl, i, n)], size[fl[i].addr := fl[i].size - n][Taken(fl, i, n).addr := n])
  {
  }

  /** malloc's search has passed m runs after freep, all too small, and is at the next one. */
  ghost predicate Searching(fl: seq<Run>, at: nat, m: nat, nunits: nat, prevp: nat, p: nat) {
    && at < |fl| && m < |fl| && p == fl[Ahead(at, m, |fl|)].addr
    && prevp == fl[if m == 0 then at else Ahead(at, m - 1, |fl|)].addr
    && (forall x | 0 <= x < m :: fl[Ahead(at, x, |fl|)].size < nunits)
  }

  lemma SearchStart(fl: seq<Run>, next: map<nat, nat>, size: map<nat, nat>, at: nat, nunits: nat)
    requires Linked(fl, next, size) && at < |fl|
    ensures Searching(fl, at, 0, nunits, fl[at].addr, next[fl[at].addr])
  {
  }

  lemma SearchStep(fl: seq<Run>, next: map<nat, nat>, size: map<nat, nat>, at: nat, m: nat, nunits: nat, prevp: nat,
                   p: nat)
    requires Ordered(fl) && Linked(fl, next, size) && Searching(fl, at, m, nunits, prevp, p)
    requires p != fl[at].addr && fl[Ahead(at, m, |fl|)].size < nunits
    ensures m + 1 < |fl| && Searching(fl, at, m + 1, nunits, p, next[p])
  {
    assert m + 1 < |fl|;
    assert fl[Ahead(at, m, |fl|)].addr == p && fl[Ahead(at, m + 1, |fl|)].addr == next[p];
  }

  /** The search that comes back to freep without success has seen every run. */
  lemma SearchEnd(fl: seq<Run>, at: nat, m: nat, nunits: nat, prevp: nat, p: nat)
    requires Ordered(fl) && Searching(fl, at, m, nunits, prevp, p)
    requires p == fl[at].addr && fl[Ahead(at, m, |fl|)].size < nunits
    ensures !HasRun(fl, nunits)
  {
    assert Ahead(at, m, |fl|) == at && m == |fl| - 1;
    AllSmall(fl, at, nunits);
  }

  /** A big enough run that the search finds is not base, and prevp is its predecessor. */
  lemma SearchFound(fl: seq<Run>, at: nat, m: nat, nunits: nat, prevp: nat, p: nat)
    requires Ordered(fl) && Searching(fl, at, m, nunits, prevp, p)
    requires nunits >= 1 && fl[Ahead(at, m, |fl|)].size >= nunits
    ensures Ahead(at, m, |fl|) >= 1 && prevp == fl[Ahead(at, m, |fl|) - 1].addr
    ensures HasRun(fl, nunits)
  {
  }

  ghost predicate HasRun(fl: seq<Run>, n: nat) {
    exists i :: 0 <= i < |fl| && fl[i].size >= n
  }

  /** The x-th run after `at`, going round. */
  function Ahead(at: nat, x: nat, n: nat): nat
    requires at < n && x < n
    ensures Ahead(at, x, n) < n
  {
    if at + 1 + x < n then at + 1 + x else at + 1 + x - n
  }

  /** The free run j lies between `at` and i, going round. */
  predicate Passed(at: nat, i: nat, j: nat) {
    if at < i then at < j < i else j > at || j < i
  }

  /** The run found is the first after freep that is large enough. */
  lemma NextFit(fl: seq<Run>, at: nat, m: nat, nunits: nat, prevp: nat, p: nat)
    requires Searching(fl, at, m, nunits, prevp, p)
    ensures forall j: nat | j < |fl| && Passed(at, Ahead(at, m, |fl|), j) :: fl[j].size < nunits
  {
    var n := |fl|;
    forall j: nat | j < n && Passed(at, Ahead(at, m, n), j) ensures fl[j].size < nunits {
      var x := if j > at then j - at - 1 else j - at - 1 + n;
      assert x < m && Ahead(at, x, n) == j;
    }
  }

  /** Once every run from freep round to freep itself has been found too small, there is none. */
  lemma AllSmall(fl: seq<Run>, at: nat, n: nat)
    requires at < |fl|
    requires forall x | 0 <= x < |fl| :: fl[Ahead(at, x, |fl|)].size < n
    ensures !HasRun(fl, n)
  {
    forall i | 0 <= i < |fl|
      ensures fl[i].size < n
    {
      var x := if i > at then i - at - 1 else i - at - 1 + |fl|;
      assert Ahead(at, x, |fl|) == i;
    }
  }

  lemma GrowDisjoint(fl: seq<Run>, live: seq<Run>, core: set<nat>, b: Run)
    requires Disjoint(fl, live) && Inside(fl, core) && Inside(live, core)
    requires b.size >= 1 && BASE < b.addr && forall u | u in core :: u < b.addr
    requires forall i | 1 <= i < |fl| :: fl[i].size >= 1
    requires |fl| >= 1 && fl[0] == Run(BASE, 0)
    ensures Disjoint(fl, live + [b])
  {
    forall i | 0 <= i < |fl|
      ensures Apart(b, fl[i])
    {
      if fl[i].size > 0 { assert fl[i].addr + fl[i].size - 1 in core; }
    }
    forall k | 0 <= k < |live|
      ensures Apart(live[k], b)
    {
      assert live[k].addr + live[k].size - 1 in core;
    }
  }

  /** Memory new from sbrk, above all that was there, counts as one more run in use. */
  lemma GrowPartition(fl: seq<Run>, live: seq<Run>, core: set<nat>, b: Run)
    requires Partition(fl, live, core) && b.size >= 1 && BASE < b.addr
    requires forall u | u in core :: u < b.addr
    ensures Partition(fl, live + [b], core + Units(b.addr, b.size))
  {
    GrowDisjoint(fl, live, core, b);
    TotalInsert(live, |live|, b);
    assert live + [b] == InsertAt(live, |live|, b);
    assert core !! Units(b.addr, b.size);
  }

  // ---- the whole state ---------------------------------------------------------------------------

  /** What the headers in memory stand for: the free list from base upwards, the place of freep in it, the
      runs malloc has given out, and every unit obtained from sbrk. */
  datatype Shape = Shape(fl: seq<Run>, at: nat, live: seq<Run>, core: set<nat>)

  ghost predicate Holds(next: map<nat, nat>, size: map<nat, nat>, freep: Option<nat>, s: Shape) {
    && Partition(s.fl, s.live, s.core) && Headers(s.live, size)
    && match freep
       case Some(p) => Linked(s.fl, next, size) && s.at < |s.fl| && s.fl[s.at].addr == p
       case None => s == Shape([Run(BASE, 0)], 0, [], {})
  }

  /** free puts the run k back after the free run t. */
  function FreeShape(s: Shape, k: nat, t: nat): Shape
    requires k < |s.live| && t < |s.fl|
  {
    Shape(Insert(s.fl, s.live[k], t), t, RemoveAt(s.live, k), s.core)
  }

  /** malloc takes n units from the free run i. */
  function TakeShape(s: Shape, i: nat, n: nat): Shape
    requires 1 <= i < |s.fl| && n <= s.fl[i].size
  {
    Shape(Take(s.fl, i, n), i - 1, s.live + [Taken(s.fl, i, n)], s.core)
  }

  /** morecore gets the run b from sbrk. */
  ghost function GrowShape(s: Shape, b: Run): Shape {
    Shape(s.fl, s.at, s.live + [b], s.core + Units(b.addr, b.size))
  }

  lemma FreeHeaders(fl: seq<Run>, live: seq<Run>, size: map<nat, nat>, k: nat, t: nat)
    requires Ordered(fl) && Disjoint(fl, live) && Headers(live, size) && k < |live| && t < |fl|
    ensures Headers(RemoveAt(live, k), FreeSize(fl, size, live[k], t))
  {
  }

  lemma FreeHolds(next: map<nat, nat>, size: map<nat, nat>, freep: Option<nat>, s: Shape, k: nat, t: nat)
    requires Holds(next, size, freep, s) && freep.Some? && k < |s.live| && Between(s.fl, s.live[k], t)
    ensures s.fl[t].addr in next && next[s.fl[t].addr] in next
    ensures Holds(FreeNext(s.fl, next, s.live[k], t), FreeSize(s.fl, size, s.live[k], t), Some(s.fl[t].addr),
              FreeShape(s, k, t))
  {
    hide Ordered, Disjoint, Inside, Headers;
    FreePartition(s.fl, s.live, s.core, k, t);
    FreeHeaders(s.fl, s.live, size, k, t);
    InsertKeepsSlot(s.fl, s.live[k], t);
    CoalesceLinked(s.fl, next, size, s.live[k], t);
  }

  /** The headers after a run, or its end, is taken. */
  function TakeNext(fl: seq<Run>, next: map<nat, nat>, i: nat, n: nat): map<nat, nat>
    requires 1 <= i < |fl| && fl[i].addr in next
  {
    if fl[i].size == n then next[fl[i - 1].addr := next[fl[i].addr]] else next
  }

  function TakeSize(fl: seq<Run>, size: map<nat, nat>, i: nat, n: nat): map<nat, nat>
    requires i < |fl| && n <= fl[i].size
  {
    if fl[i].size == n then size else size[fl[i].addr := fl[i].size - n][Taken(fl, i, n).addr := n]
  }

  lemma TakeHolds(next: map<nat, nat>, size: map<nat, nat>, freep: Option<nat>, s: Shape, i: nat, n: nat)
    requires Holds(next, size, freep, s) && freep.Some? && 1 <= i < |s.fl| && 1 <= n <= s.fl[i].size
    ensures s.fl[i].addr in next && s.fl[i].addr in size && size[s.fl[i].addr] == s.fl[i].size
    ensures Holds(TakeNext(s.fl, next, i, n), TakeSize(s.fl, size, i, n), Some(s.fl[i - 1].addr), TakeShape(s, i, n))
  {
    hide Ordered, Disjoint, Inside, Headers;
    TakePartition(s.fl, s.live, s.core, i, n);
    TakeLinked(s.fl, next, size, i, n);
    TakeHeaders(s.fl, s.live, size, i, n);
    TakeKeepsPrev(s.fl, i, n);
  }

  /** A header above all memory so far belongs to no run. */
  lemma NewHeader(fl: seq<Run>, live: seq<Run>, core: set<nat>, hp: nat)
    requires Partition(fl, live, core) && BASE < hp && forall u | u in core :: u < hp
    ensures forall i | 0 <= i < |fl| :: fl[i].addr != hp
    ensures forall k | 0 <= k < |live| :: live[k].addr != hp
  {
  }

  lemma GrowHolds(next: map<nat, nat>, size: map<nat, nat>, freep: Option<nat>, s: Shape, b: Run)
    requires Holds(next, size, freep, s) && freep.Some? && b.size >= 1 && BASE < b.addr
    requires forall u | u in s.core :: u < b.addr
    ensures Holds(next, size[b.addr := b.size], freep, GrowShape(s, b))
  {
    hide Ordered, Disjoint, Inside;
    GrowPartition(s.fl, s.live, s.core, b);
    NewHeader(s.fl, s.live, s.core, b.addr);
    LinkedSame(s.fl, next, size, next, size[b.addr := b.size]);
  }

  lemma FirstHolds(next: map<nat, nat>, size: map<nat, nat>, s: Shape)
    requires Holds(next, size, None, s)
    ensures Holds(next[BASE := BASE], size[BASE := 0], Some(BASE), s)
  {
  }
}

/** malloc's search round the ring. */
module HeapSearch {
  import opened HeapRuns

  lemma StartSearch(next: map<nat, nat>, size: map<nat, nat>, freep: Option<nat>, s: Shape, n: nat)
    requires Holds(next, size, freep, s) && freep.Some?
    ensures freep.value in next && Searching(s.fl, s.at, 0, n, freep.value, next[freep.value])
    ensures At(next, size, s, 0, next[freep.value])
  {
    SearchStart(s.fl, next, size, s.at, n);
  }

  /** The search is at a header, and knows its size. */
  ghost predicate At(next: map<nat, nat>, size: map<nat, nat>, s: Shape, m: nat, p: nat) {
    s.at < |s.fl| && m < |s.fl| && p in next && p in size && size[p] == s.fl[Ahead(s.at, m, |s.fl|)].size
  }

  lemma FoundRun(next: map<nat, nat>, size: map<nat, nat>, freep: Option<nat>, s: Shape, m: nat, n: nat, prevp: nat,
                 p: nat)
    requires Holds(next, size, freep, s) && freep.Some? && Searching(s.fl, s.at, m, n, prevp, p)
    requires n >= 1 && s.fl[Ahead(s.at, m, |s.fl|)].size >= n
    ensures Ahead(s.at, m, |s.fl|) >= 1 && prevp == s.fl[Ahead(s.at, m, |s.fl|) - 1].addr
    ensures p == s.fl[Ahead(s.at, m, |s.fl|)].addr && HasRun(s.fl, n)
  {
    hide Linked, Headers, Disjoint, Inside, HasRun;
    SearchFound(s.fl, s.at, m, n, prevp, p);
  }

  /** Not big enough: either the ring has no run that is, or the search goes on to the next. */
  lemma MoveOn(next: map<nat, nat>, size: map<nat, nat>, freep: Option<nat>, s: Shape, m: nat, n: nat, prevp: nat,
               p: nat)
    requires Holds(next, size, freep, s) && freep.Some? && Searching(s.fl, s.at, m, n, prevp, p)
    requires s.fl[Ahead(s.at, m, |s.fl|)].size < n
    ensures p in next
    ensures p == freep.value ==> !HasRun(s.fl, n)
    ensures p != freep.value ==> m + 1 < |s.fl| && Searching(s.fl, s.at, m + 1, n, p, next[p])
                                 && At(next, size, s, m + 1, next[p])
  {
    if p == freep.value {
      SearchEnd(s.fl, s.at, m, n, prevp, p);
    } else {
      SearchStep(s.fl, next, size, s.at, m, n, prevp, p);
    }
  }
}

/** sbrk: growproc of src/proc.c and the sizes that allocuvm and deallocuvm of src/vm.c return. */
module Sbrk {
  import opened HeapRuns

  const SIGN := 0x8000_0000
  const KERNBASE := 0x8000_0000

  /** The size on record, and where the memory of the process really ends. */
  datatype Brk = Brk(sz: nat, top: nat)

  datatype Grown = Grown(ok: bool, brk: Brk)

  /** The int that a uint is passed as. */
  function Int(x: nat): (n: int)
    ensures -SIGN <= n < SIGN
  {
    var u := x % UINT;
    if u < SIGN then u else u - UINT
  }

  /** growproc; `room` says whether allocuvm finds the frames.  A deallocuvm down to 0 frees the memory, but its result
      reads as a failure. */
  function GrowProc(b: Brk, n: int, room: bool): Grown {
    var newsz := (b.sz + n) % UINT;
    if n > 0 then
      if newsz >= KERNBASE then Grown(false, b)
      else if newsz < b.sz then Grown(b.sz != 0, b)
      else if room && newsz != 0 then Grown(true, Brk(newsz, newsz)) else Grown(false, b)
    else if n < 0 then
      if newsz >= b.sz then Grown(b.sz != 0, b)
      else if newsz == 0 then Grown(false, Brk(b.sz, 0)) else Grown(true, Brk(newsz, newsz))
    else Grown(true, b)
  }

  /** A request for some bytes, up to all of 2^32, gains just these, or fails without effect for want of room, exactly
      when they are fewer than 2^31; of 2^31 and more bytes it gains none, and it loses some if they are many. */
  lemma SbrkExact(b: Brk, bytes: nat, room: bool)
    requires 0 < b.sz == b.top < KERNBASE && 0 < bytes <= UINT
    ensures var g := GrowProc(b, Int(bytes), room);
            && (bytes < SIGN <==>
                  g == if room && b.sz + bytes < KERNBASE
                       then Grown(true, Brk(b.sz + bytes, b.sz + bytes)) else Grown(false, b))
            && (bytes >= SIGN ==> g.brk.top <= b.top && (g.ok <==> b.sz + bytes != UINT))
            && (bytes >= SIGN && !g.ok ==> g.brk == Brk(b.sz, 0))
            && (bytes >= SIGN ==> (g.brk == b <==> b.sz + bytes < UINT || bytes == UINT))
  {
  }

  /** A request to give back some bytes, fewer than the process has, gives back just these.  One for all of them frees
      the memory and reports a failure, and one for more does nothing and reports success. */
  lemma SbrkShrinks(b: Brk, bytes: nat, room: bool)
    requires 0 < b.sz == b.top < KERNBASE && 0 < bytes <= SIGN
    ensures GrowProc(b, 0 - bytes, room) ==
              if bytes < b.sz then Grown(true, Brk(b.sz - bytes, b.sz - bytes))
              else if bytes == b.sz then Grown(false, Brk(b.sz, 0)) else Grown(true, b)
  {
  }
}

/** malloc, free and morecore, on headers in memory. */
module Heap {
  import opened Seqs
  import opened HeapRuns
  import opened HeapSearch
  import opened Sbrk

  /** What malloc does: it gives out the memory at an address or a null pointer, or it stores a header outside the
      memory of the process. */
  datatype Outcome = Ptr(addr: nat) | Null | Fault

  class Arena {
    var next: map<nat, nat>      // header address -> s.ptr
    var size: map<nat, nat>      // header address -> s.size
    var freep: Option<nat>
    var brk: Brk
    ghost var shape: Shape

    /** The headers stand for the shape, and every unit of it is memory of the process. */
    ghost predicate Valid()
      reads this
    {
      Holds(next, size, freep, shape) && Backed(brk, shape.core)
    }

    constructor (sz: nat)
      requires 0 < sz < KERNBASE && sz % HEADER == 0
      ensures Valid() && freep.None? && shape == Shape([Run(BASE, 0)], 0, [], {}) && brk == Brk(sz, sz)
    {
      next, size, freep, brk := map[], map[], None, Brk(sz, sz);
      shape := Shape([Run(BASE, 0)], 0, [], {});
      new;
      assert [Run(BASE, 0)][..0] == [];
    }

    /** The search loop of free: it stops, from any freep, at the free run after which bp belongs. */
    method Search(bp: nat, ghost b: Run, ghost t: nat) returns (p: nat)
      requires Valid() && freep.Some? && b.addr == bp && Between(shape.fl, b, t)
      ensures p == shape.fl[t].addr
    {
      p := freep.value;
      ghost var fl := shape.fl;
      ghost var i: nat := shape.at;
      while !(bp > p && bp < next[p])
        invariant i < |fl| && fl[i].addr == p
        decreases if i <= t then t - i else t - i + |fl|
      {
        ghost var j := if i + 1 < |fl| then i + 1 else 0;
        assert next[fl[i].addr] == fl[j].addr;
        if p >= next[p] && (bp > p || bp < next[p]) {
          break;
        }
        assert i != t;
        p, i := next[p], j;
      }
      assert next[fl[i].addr] == fl[if i + 1 < |fl| then i + 1 else 0].addr;
    }

    /** The two merges of free, on the headers: bp with the free run above it, then with p below it. */
    method Coalesce(bp: nat, p: nat, ghost fl: seq<Run>, ghost b: Run, ghost t: nat)
      requires Ordered(fl) && Linked(fl, next, size) && Between(fl, b, t)
      requires bp == b.addr && p == fl[t].addr && bp in size && size[bp] == b.size
      modifies this`next, this`size
      ensures old(next[p]) in old(next)
      ensures next == FreeNext(fl, old(next), b, t) && size == FreeSize(fl, old(size), b, t)
    {
      UpLinked(fl, next, size, b, t);
      if bp + size[bp] == next[p] {
        size, next := size[bp := size[bp] + size[next[p]]], next[bp := next[next[p]]];
      } else {
        next := next[bp := next[p]];
      }
      assert size == old(size)[bp := Upper(fl, b, t).size];
      if p + size[p] == bp {
        size, next := size[p := size[p] + size[bp]], next[p := next[bp]];
      } else {
        next := next[p := bp];
      }
    }

    /** free: the run goes back to the list, merged with the free runs it touches. */
    method Free(ap: nat, ghost k: nat) returns (ghost t: nat)
      requires Valid() && freep.Some?
      requires k < |shape.live| && shape.live[k].addr + 1 == ap   // ap came from malloc, not freed since
      modifies this
      ensures Valid() && freep.Some? && brk == old(brk)
      ensures Between(old(shape.fl), old(shape.live[k]), t) && shape == FreeShape(old(shape), k, t)
    {
      var bp := ap - 1;
      t := Slot(shape.fl, shape.live[k], |shape.fl|);
      var p := Search(bp, shape.live[k], t);
      FreeHolds(next, size, freep, shape, k, t);
      Coalesce(bp, p, shape.fl, shape.live[k], t);
      freep := Some(p);
      shape := FreeShape(shape, k, t);
    }

    /** sbrk, also as other callers use it: the old size, or -1. */
    method Sbrk(n: int, room: bool) returns (addr: int)
      requires -SIGN <= n < SIGN
      modifies this`brk
      ensures var g := GrowProc(old(brk), n, room); brk == g.brk && addr == if g.ok then old(brk.sz) else -1
      ensures old(Valid()) && n >= 0 && n % HEADER == 0 ==> Valid()
    {
      hide Holds;
      if Valid() && n >= 0 && n % HEADER == 0 {
        StillBacked(brk, n, room, shape.core);
      }
      var g := GrowProc(brk, n, room);
      addr := if g.ok then brk.sz else -1;
      brk := g.brk;
    }

    /** morecore: ask sbrk for memory and free it into the list. */
    method MoreCore(nu: nat, room: bool) returns (p: Outcome)
      requires Valid() && freep.Some? && nu <= UINT / HEADER
      modifies this
      ensures freep.Some? && shape.live == old(shape.live)
      ensures p == Answer(old(brk), nu, room, freep.value)
      ensures !p.Ptr? ==> freep == old(freep) && shape == old(shape) && next == old(next) && size == old(size)
      ensures brk == Asked(old(brk), nu, room).brk && (Valid() && !p.Fault? <==> CoreUnits(nu) * HEADER < SIGN)
      ensures p.Ptr? ==> Valid() && p.addr == freep.value && HasRun(shape.fl, nu)
                         && Gained(old(shape.core), old(brk), shape.core, brk, nu)
    {
      hide Holds, HasRun, Int, GrowProc, Insert;
      var n := CoreUnits(nu);
      SbrkExact(brk, n * HEADER, room);
      var addr := Sbrk(Int(n * HEADER), room);
      if addr < 0 {
        return Null;
      }
      var hp := addr / HEADER;
      if brk.top < addr + HEADER {
        return Fault;
      }
      ghost var b := Run(hp, n);
      GrowHolds(next, size, freep, shape, b);
      size := size[hp := n];
      shape := GrowShape(shape, b);
      ghost var t := Free(hp + 1, |shape.live| - 1);
      assert shape.live == old(shape.live);
      InsertHolds(old(shape.fl), b, t, nu);
      p := Ptr(freep.value);
    }

    /** malloc's change to the headers: unlink a run that fits exactly, or cut off the end of a bigger one. */
    method Cut(prevp: nat, p: nat, nunits: nat, ghost fl: seq<Run>, ghost i: nat) returns (h: nat)
      requires 1 <= i < |fl| && nunits <= fl[i].size && p == fl[i].addr && prevp == fl[i - 1].addr
      requires p in next && p in size && size[p] == fl[i].size
      modifies this`next, this`size
      ensures next == TakeNext(fl, old(next), i, nunits) && size == TakeSize(fl, old(size), i, nunits)
      ensures h == Taken(fl, i, nunits).addr
    {
      h := p;
      if size[p] == nunits {
        next := next[prevp := next[p]];
      } else {
        size := size[p := size[p] - nunits];
        h := p + size[p];
        size := size[h := nunits];
      }
    }

    /** Take nunits from the free run i, which prevp precedes. */
    method Carve(prevp: nat, p: nat, nunits: nat, ghost i: nat) returns (h: nat)
      requires Valid() && freep.Some? && 1 <= i < |shape.fl| && 1 <= nunits <= shape.fl[i].size
      requires p == shape.fl[i].addr && prevp == shape.fl[i - 1].addr
      modifies this
      ensures Valid() && freep == Some(prevp) && brk == old(brk)
      ensures shape == TakeShape(old(shape), i, nunits)
      ensures shape.live == old(shape.live) + [Run(h, nunits)]
      ensures h + nunits == old(shape.fl)[i].addr + old(shape.fl)[i].size
    {
      hide Holds;
      TakeHolds(next, size, freep, shape, i, nunits);
      h := Cut(prevp, p, nunits, shape.fl, i);
      freep := Some(prevp);
      shape := TakeShape(shape, i, nunits);
    }

    /** malloc's loop: next-fit round the ring; when the ring has no run big enough, morecore once and go on. */
    method FindRun(nunits: nat, room: bool) returns (out: Outcome, prevp: nat, ghost i: nat, ghost grew: bool)
      requires Valid() && freep.Some? && 1 <= nunits <= UINT / HEADER
      modifies this
      ensures freep.Some? && shape.live == old(shape.live) && (grew <==> !HasRun(old(shape.fl), nunits))
      ensures out.Ptr? ==>
                Valid() && 1 <= i < |shape.fl| && out.addr == shape.fl[i].addr && prevp == shape.fl[i - 1].addr
                           && nunits <= shape.fl[i].size
                           && forall j: nat | j < |shape.fl| && Passed(shape.at, i, j) :: shape.fl[j].size < nunits
      ensures !out.Ptr? ==> grew && shape == old(shape) && out == Answer(old(brk), nunits, room, 0)
      ensures if grew then brk == Asked(old(brk), nunits, room).brk else unchanged(this)
      ensures Valid() && !out.Fault? <==> !grew || CoreUnits(nunits) * HEADER < SIGN
      ensures grew && out.Ptr? ==> Gained(old(shape.core), old(brk), shape.core, brk, nunits)
    {
      hide Holds, Searching, HasRun, Answer, Asked, Gained;
      grew, i := false, 0;
      ghost var m: nat := 0;
      StartSearch(next, size, freep, shape, nunits);
      prevp := freep.value;
      var p := next[prevp];
      while size[p] < nunits
        invariant Valid() && freep.Some? && shape.live == old(shape.live)
        invariant !grew ==> unchanged(this)
        invariant grew ==> !HasRun(old(shape.fl), nunits) && HasRun(shape.fl, nunits)
        invariant grew ==> CoreUnits(nunits) * HEADER < SIGN && brk == Asked(old(brk), nunits, room).brk
                           && Gained(old(shape.core), old(brk), shape.core, brk, nunits)
        invariant Searching(shape.fl, shape.at, m, nunits, prevp, p) && At(next, size, shape, m, p)
        decreases !grew, |shape.fl| - m
      {
        MoveOn(next, size, freep, shape, m, nunits, prevp, p);
        m := m + 1;
        if p == freep.value {
          out := MoreCore(nunits, room);
          grew := true;
          if !out.Ptr? {
            AnswerOther(old(brk), nunits, room, old(freep.value), 0);
            return;
          }
          p, m := out.addr, 0;
          StartSearch(next, size, freep, shape, nunits);
        }
        prevp, p := p, next[p];
      }
      FoundRun(next, size, freep, shape, m, nunits, prevp, p);
      NextFit(shape.fl, shape.at, m, nunits, prevp, p);
      i := Ahead(shape.at, m, |shape.fl|);
      out := Ptr(p);
    }

    /** malloc: a run of NUnits(nbytes) units, carved from a free run.  It asks for memory exactly when no free run is
        large enough, and all is well exactly when it does not, or asks for fewer than 2^31 bytes. */
    method Malloc(nbytes: nat, room: bool) returns (out: Outcome, ghost grew: bool, ghost i: nat)
      requires Valid() && nbytes < UINT
      modifies this
      ensures grew <==> !HasRun(old(shape.fl), NUnits(nbytes))
      ensures !out.Ptr? ==> grew && shape == old(shape) && out == Answer(old(brk), NUnits(nbytes), room, 0)
      ensures brk == if grew then Asked(old(brk), NUnits(nbytes), room).brk else old(brk)
      ensures Valid() && !out.Fault? <==> !grew || CoreUnits(NUnits(nbytes)) * HEADER < SIGN
      ensures out.Ptr? && grew ==> Gained(old(shape.core), old(brk), shape.core, brk, NUnits(nbytes))
      ensures out.Ptr? && grew ==>
                brk.sz == old(brk.sz) + HEADER * if NUnits(nbytes) < 4096 then 4096 else NUnits(nbytes)
      ensures out.Ptr? && !grew ==>
                var fl, n := old(shape.fl), NUnits(nbytes);
                && shape.core == old(shape.core) && 1 <= i < |fl| && n <= fl[i].size
                && (forall j: nat | j < |fl| && Passed(old(shape.at), i, j) :: fl[j].size < n)
                && out.addr - 1 + n == fl[i].addr + fl[i].size && shape.fl == Take(fl, i, n)
      ensures out.Ptr? ==>
                Valid() && out.addr >= 1 && shape.live == old(shape.live) + [Run(out.addr - 1, NUnits(nbytes))]
    {
      hide Holds, HasRun, Answer, Asked, Gained;
      var nunits := NUnits(nbytes);
      if freep.None? {
        FirstHolds(next, size, shape);
        next, size, freep := next[BASE := BASE], size[BASE := 0], Some(BASE);
      }
      var prevp;
      out, prevp, i, grew := FindRun(nunits, room);
      if !out.Ptr? {
        return;
      }
      if grew {
        GainedTop(old(shape.core), old(brk), shape.core, brk, nunits);
      }
      var h := Carve(prevp, out.addr, nunits, i);
      out := Ptr(h + 1);
    }
  }

  /** The break is where it is on record, and the units lie below it. */
  ghost predicate Backed(brk: Brk, core: set<nat>) {
    && 0 < brk.sz == brk.top < KERNBASE && brk.sz % HEADER == 0
    && forall u | u in core :: (u + 1) * HEADER <= brk.top
  }

  lemma StillBacked(b: Brk, n: int, room: bool, core: set<nat>)
    requires Backed(b, core) && 0 <= n < SIGN && n % HEADER == 0
    ensures Backed(GrowProc(b, n, room).brk, core)
  {
  }

  /** What the system makes of morecore's request. */
  function Asked(b: Brk, nu: nat, room: bool): Grown {
    GrowProc(b, Int(CoreUnits(nu) * HEADER), room)
  }

  /** morecore's result, with freep as it then is. */
  function Answer(b: Brk, nu: nat, room: bool, freep: nat): Outcome {
    if !Asked(b, nu, room).ok then Null else if CoreUnits(nu) * HEADER < SIGN then Ptr(freep) else Fault
  }

  lemma AnswerOther(b: Brk, nu: nat, room: bool, p: nat, q: nat)
    requires !Answer(b, nu, room, p).Ptr?
    ensures Answer(b, nu, room, p) == Answer(b, nu, room, q)
  {
  }

  /** The units put on the list are the ones by which the memory of the process grew. */
  ghost predicate Gained(core1: set<nat>, b1: Brk, core2: set<nat>, b2: Brk, nu: nat) {
    && core2 == core1 + Units(b1.top / HEADER, CoreUnits(nu)) && core1 !! Units(b1.top / HEADER, CoreUnits(nu))
    && b2.top == b1.top + CoreUnits(nu) * HEADER
  }

  lemma GainedTop(core1: set<nat>, b1: Brk, core2: set<nat>, b2: Brk, nu: nat)
    requires Gained(core1, b1, core2, b2, nu) && Backed(b1, core1) && Backed(b2, core2)
    ensures b2.sz == b1.sz + HEADER * if nu < 4096 then 4096 else nu
  {
  }

  /** nunits, with the wrap-around of unsigned arithmetic. */
  function NUnits(nbytes: nat): (n: nat)
    requires nbytes < UINT
    ensures 1 <= n <= UINT / HEADER
  {
    (nbytes + HEADER - 1) % UINT / HEADER + 1
  }

  /** The run malloc gives out has room for the bytes asked for exactly when the rounding does not wrap; and a run got
      from morecore is also memory of the process exactly up to 0x7FFFFFF0 bytes. */
  lemma RoomForBytes(nbytes: nat)
    requires nbytes < UINT
    ensures RoomFor(nbytes) <==> nbytes + HEADER - 1 < UINT
    ensures RoomFor(nbytes) && nbytes > 0 ==> (NUnits(nbytes) - 2) * HEADER < nbytes
    ensures RoomFor(nbytes) && CoreUnits(NUnits(nbytes)) * HEADER < SIGN <==> nbytes <= 0x7FFF_FFF0
  {
  }

  predicate RoomFor(nbytes: nat)
    requires nbytes < UINT
  {
    nbytes <= (NUnits(nbytes) - 1) * HEADER
  }

  /** The smallest request that goes wrong, in a new process of any size: sbrk reports success and grants nothing. */
  method MallocFaults(sz: nat, room: bool) returns (a: Arena, out: Outcome)
    requires 0 < sz < KERNBASE && sz % HEADER == 0
    ensures out == Fault && a.brk == Brk(sz, sz)
  {
    hide Holds, GrowProc, Int, Gained;
    a := new Arena(sz);
    assert NUnits(0x7FFF_FFF1) * HEADER == SIGN;
    assert CoreUnits(NUnits(0x7FFF_FFF1)) * HEADER == SIGN;
    SbrkExact(a.brk, SIGN, room);
    assert !HasRun(a.shape.fl, NUnits(0x7FFF_FFF1));
    ghost var grew, i;
    out, grew, i := a.Malloc(0x7FFF_FFF1, room);
  }

  function CoreUnits(nu: nat): nat {
    if nu < MIN_UNITS then MIN_UNITS else nu
  }

  /** The run put back is inside one run of the new list. */
  lemma InsertHolds(fl: seq<Run>, b: Run, t: nat, n: nat)
    requires t < |fl| && n <= b.size
    ensures HasRun(Insert(fl, b, t), n)
  {
    var r := Insert(fl, b, t);
    assert Rest(fl, b, t)[t] == fl[t];
    if fl[t].addr + fl[t].size == b.addr {
      assert r[t].size >= b.size;
    } else {
      assert r[t + 1] == Upper(fl, b, t);
    }
  }
}
