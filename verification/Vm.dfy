/** The operations of src/vm.c and src/kalloc.c on physical memory. */
module Vm {
  import opened Blocks
  import opened Seqs
  import opened Paging

  const PGSIZE := 4096
  const KERNBASE := 0x8000_0000
  const EXTMEM := 0x10_0000
  const KERNLINK := 0x8010_0000     // KERNBASE + EXTMEM
  const PHYSTOP := 0xE00_0000
  const DEVSPACE := 0xFE00_0000
  const TABLE_FLAGS := 6          // PTE_W | PTE_U, for every page directory entry

  /** The free list has every free frame once. */
  ghost predicate FreeList(free: seq<nat>, own: seq<Owner>) {
    && (forall k: nat | k < |free| :: free[k] < |own| && own[free[k]].Free?)
    && (forall j: nat, k: nat | j < k < |free| :: free[j] != free[k])
    && (forall f: nat | f < |own| && own[f].Free? :: f in free)
  }

  lemma FreeListKeep(free: seq<nat>, own: seq<Owner>, f: nat, o: Owner)
    requires FreeList(free, own) && f < |own| && !own[f].Free? && !o.Free?
    ensures FreeList(free, own[f := o])
  {
  }

  lemma FreeListPush(free: seq<nat>, own: seq<Owner>, f: nat)
    requires FreeList(free, own) && f < |own| && !own[f].Free?
    ensures FreeList([f] + free, own[f := Free])
  {
  }

  ghost predicate NoneFree(own: seq<Owner>) {
    forall f: nat | f < |own| :: !own[f].Free?
  }

  /** User data, and frames taken for something else, are as they were. */
  ghost predicate DataKept(mem1: seq<Frame>, mem2: seq<Frame>, own: seq<Owner>) {
    |mem2| == |mem1| && forall f: nat | f < |own| && f < |mem1| && (own[f].User? || own[f].Loose?) :: mem2[f] == mem1[f]
  }

  /** Free frames may have become page tables of directory d; nothing else changed hands. */
  ghost predicate TablesAdded(own1: seq<Owner>, own2: seq<Owner>, d: nat) {
    && |own1| == |own2|
    && forall f: nat | f < |own1| :: own2[f] == own1[f] || (own1[f].Free? && own2[f].Tab? && own2[f].d == d)
  }

  class Machine {
    var free: seq<nat>
    var mem: seq<Frame>
    ghost var own: seq<Owner>

    ghost predicate Valid()
      reads this
    {
      Inv(mem, own) && FreeList(free, own) && |own| == |mem|
    }

    ghost predicate IsDir(d: nat)
      reads this
    {
      d < |own| && own[d].Dir?
    }

    /** Physical memory before the allocator is initialised: nothing is free. */
    constructor (n: nat)
      ensures Valid() && |own| == n && forall f: nat | f < n :: own[f].Loose?
    {
      free := [];
      mem := seq(n, _ => Junk);
      own := seq(n, _ => Loose);
    }

    /** freerange: the frames that lie wholly within the bytes vstart .. vend become free. */
    method Freerange(vstart: nat, vend: nat)
      requires Valid() && vend <= |own| * PGSIZE
      requires forall f: nat | f < |own| && vstart <= f * PGSIZE && (f + 1) * PGSIZE <= vend :: own[f].Loose?
      modifies this
      ensures Valid() && |own| == |old(own)| && SameMaps(old(mem), mem, own)
      ensures forall f: nat | f < |own| ::
                own[f] == if vstart <= f * PGSIZE && (f + 1) * PGSIZE <= vend then Free else old(own)[f]
    {
      hide Inv, SameMaps, FreeList;
      SameMapsSelf(mem, own);
      var f := Pages(vstart);
      while (f + 1) * PGSIZE <= vend
        invariant Valid() && |own| == |old(own)| && SameMaps(old(mem), mem, own) && Pages(vstart) <= f
        invariant forall g: nat | g < |own| ::
                    own[g] == if vstart <= g * PGSIZE && (g + 1) * PGSIZE <= vend && g < f then Free else old(own)[g]
        decreases vend - f * PGSIZE
      {
        ghost var mem1, own1 := mem, own;
        Kfree(f);
        SameMapsOwn(old(mem), mem1, own1, own);
        SameMapsTwice(old(mem), mem1, mem, own);
        f := f + 1;
      }
    }

    /** kalloc: a frame off the free list, or -1. */
    method Kalloc() returns (f: int)
      requires Valid()
      modifies this`free, this`own
      ensures Valid() && -1 <= f < |own| == |old(own)|
      ensures f < 0 ==> unchanged(this) && NoneFree(own) && |free| == 0
      ensures f >= 0 ==> old(own)[f].Free? && own == old(own)[f := Loose] && |free| == |old(free)| - 1
    {
      hide Inv;
      if |free| == 0 {
        return -1;
      }
      f := free[0];
      LooseOwner(mem, own, f, Loose);
      free := free[1..];
      own := own[f := Loose];
    }

    /** kfree: the frame is filled with junk and put on the free list. */
    method Kfree(f: nat)
      requires Valid() && f < |own| && own[f].Loose?
      modifies this`free, this`own, this`mem
      ensures Valid() && own == old(own)[f := Free] && mem == old(mem)[f := Junk] && SameMaps(old(mem), mem, own)
    {
      hide Inv, SameMaps, FreeList;
      LooseMem(mem, own, f, Junk);
      mem := mem[f := Junk];
      LooseOwner(mem, own, f, Free);
      SameMapsOwn(old(mem), mem, own, own[f := Free]);
      FreeListPush(free, own, f);
      free := [f] + free;
      own := own[f := Free];
    }

    /** walkpgdir: the page table for page v of directory d, made if asked for; -1 if there is none. */
    method Walk(d: nat, v: nat, alloc: bool) returns (t: int)
      requires Valid() && IsDir(d) && v < NPAGES
      modifies this
      ensures Valid() && -1 <= t < |own| && IsDir(d)
      ensures SameMaps(old(mem), mem, own) && TablesAdded(old(own), own, d) && DataKept(old(mem), mem, old(own))
      ensures t >= 0 ==> own[t] == Tab(d, v / NPT)
      ensures t < 0 ==> unchanged(this) && Entry(mem, d, v / NPT).Absent? && (alloc ==> NoneFree(own))
      ensures !alloc || old(Entry(mem, d, v / NPT)).Present? ==> unchanged(this)
      ensures t >= 0 ==> Tabs(mem, d) == Tabs(old(mem), d) + {v / NPT}
      ensures |free| + |Tabs(mem, d)| == |old(free)| + |Tabs(old(mem), d)| && (t < 0 && alloc ==> |free| == 0)
    {
      hide Inv, SameMaps, Entry, FreeList;
      HasTab(mem, d, v / NPT);
      InvTables(mem, own, d, v / NPT);
      SameMapsSelf(mem, own);
      var pde := mem[d].e[v / NPT];
      if pde.Present? {
        return pde.frame;
      }
      if !alloc {
        return -1;
      }
      t := Kalloc();
      if t < 0 {
        return;
      }
      ghost var own1 := own;
      LooseMem(mem, own, t, Table(Copies(Absent, NPT)));
      mem := mem[t := Table(Copies(Absent, NPT))];
      ghost var mem1 := mem;
      InvTables(mem, own, d, v / NPT);
      AddTable(mem, own, d, v / NPT, t, TABLE_FLAGS);
      SameMapsOwn(old(mem), mem1, own1, own[t := Tab(d, v / NPT)]);
      FreeListKeep(free, own, t, Tab(d, v / NPT));
      mem := SetEntry(mem, d, v / NPT, Present(t, TABLE_FLAGS));
      own := own[t := Tab(d, v / NPT)];
      SameMapsTwice(old(mem), mem1, mem, own);
      NewTab(old(mem), mem1, mem, d, v / NPT, t);
    }

    /** One round of mappages: page v is mapped to frame pf. */
    method MapPage(d: nat, v: nat, pf: nat, perm: nat) returns (ok: bool)
      requires Valid() && IsDir(d) && v < NPAGES && Lookup(mem, d, v).Absent?
      requires v < KERNPAGE ==> pf < |own| && own[pf].Loose? && mem[pf].Data?
      modifies this
      ensures Valid() && IsDir(d) && DataKept(old(mem), mem, old(own))
      ensures ok ==>
                MapSet(old(mem), mem, own, d, v, Present(pf, perm)) && TablesAdded(Given(old(own), d, v, pf), own, d)
      ensures !ok ==> unchanged(this) && NoneFree(own) && |free| == 0 && v / NPT !in Tabs(mem, d)
      ensures ok ==> Tabs(mem, d) == Tabs(old(mem), d) + {v / NPT}
      ensures |free| + |Tabs(mem, d)| == |old(free)| + |Tabs(old(mem), d)|
    {
      hide Inv, SameMaps, MapSet, Entry, Tabs, FreeList;
      ghost var mem0, own0 := mem, own;
      HasTab(mem, d, v / NPT);
      var t := Walk(d, v, true);
      if t < 0 {
        return false;
      }
      ghost var mem1, own1 := mem, own;
      WalkedAbsent(mem0, mem1, own1, d, v);
      TabIsTable(mem, own, t);
      if v < KERNPAGE {
        MapUser(mem, own, d, v, t, pf, perm);
        FreeListKeep(free, own, pf, User(d, v));
        own := own[pf := User(d, v)];
      } else {
        MapKernel(mem, own, d, v, t, Present(pf, perm));
      }
      mem := SetEntry(mem, t, v % NPT, Present(pf, perm));
      SameTabs(mem1, mem, d, t, v % NPT, Present(pf, perm));
      SameThenSet(mem0, mem1, mem, own1, own, d, v, Present(pf, perm));
      ok := true;
    }

    /** mappages: the pages of the bytes va .. va + size, to frames from pf on.  It fails exactly when there are not
        enough free frames for the page tables that are missing. */
    method Mappages(d: nat, va: nat, size: nat, pf: nat, perm: nat) returns (ok: bool, ghost done: nat)
      requires Valid() && IsDir(d) && 0 < size && va + size <= NPAGES * PGSIZE
      requires NoPages(mem, d, va / PGSIZE, (va + size - 1) / PGSIZE)
      requires ReadyFrames(mem, own, va / PGSIZE, (va + size - 1) / PGSIZE, pf)
      modifies this
      ensures Valid() && IsDir(d) && DataKept(old(mem), mem, old(own))
      ensures RangeMapped(old(mem), mem, own, d, va / PGSIZE, done, pf, perm)
      ensures TablesAdded(GivenAll(old(own), d, va / PGSIZE, done, pf), own, d)
      ensures ok ==> done == (va + size - 1) / PGSIZE - va / PGSIZE + 1
      ensures !ok ==> done <= (va + size - 1) / PGSIZE - va / PGSIZE && NoneFree(own)
      ensures !ok && done == 0 ==> unchanged(this)
      ensures Paid(|old(free)|, Tabs(old(mem), d), |free|, Tabs(mem, d), va / PGSIZE, done)
      ensures ok <==> Enough(|old(free)|, Tabs(old(mem), d), va / PGSIZE, (va + size - 1) / PGSIZE - va / PGSIZE + 1)
    {
      hide Inv, RangeMapped, Lookup, Tabs, Paid, TablesAdded, DataKept, NoneFree, FreeList, NoPages, ReadyFrames,
           Enough, GivenAll;
      ok, done := MapRange(d, va / PGSIZE, (va + size - 1) / PGSIZE, pf, perm);
    }

    /** The loop of mappages, over the pages first .. last. */
    method MapRange(d: nat, first: nat, last: nat, pf: nat, perm: nat) returns (ok: bool, ghost done: nat)
      requires Valid() && IsDir(d) && first <= last < NPAGES
      requires NoPages(mem, d, first, last) && ReadyFrames(mem, own, first, last, pf)
      modifies this
      ensures Valid() && IsDir(d) && DataKept(old(mem), mem, old(own))
      ensures RangeMapped(old(mem), mem, own, d, first, done, pf, perm)
      ensures TablesAdded(GivenAll(old(own), d, first, done, pf), own, d)
      ensures ok ==> done == last - first + 1
      ensures !ok ==> done <= last - first && NoneFree(own)
      ensures !ok && done == 0 ==> unchanged(this)
      ensures Paid(|old(free)|, Tabs(old(mem), d), |free|, Tabs(mem, d), first, done)
      ensures ok <==> Enough(|old(free)|, Tabs(old(mem), d), first, last - first + 1)
    {
      hide Inv, RangeMapped, Lookup, Tabs, Paid, TablesAdded, DataKept, MapSet, NoneFree, FreeList, NoPages,
           ReadyFrames, Enough;
      var a := first;
      done := 0;
      PaidNone(|free|, Tabs(mem, d), first);
      RangeNone(mem, own, d, first, pf, perm);
      while true
        invariant first <= a <= last && done == a - first
        invariant Valid() && IsDir(d) && DataKept(old(mem), mem, old(own))
        invariant RangeMapped(old(mem), mem, own, d, first, done, pf, perm)
        invariant TablesAdded(GivenAll(old(own), d, first, done, pf), own, d)
        invariant done == 0 ==> unchanged(this)
        invariant Paid(|old(free)|, Tabs(old(mem), d), |free|, Tabs(mem, d), first, done)
        decreases last - a
      {
        ghost var mem1, own1, free1 := mem, own, |free|;
        RangeNext(old(mem), mem, own, d, first, last, done, pf, perm);
        FrameNext(old(mem), old(own), mem, own, d, first, last, done, pf);
        ok := MapPage(d, a, pf + (a - first), perm);
        if !ok {
          PaidOut(|old(free)|, Tabs(old(mem), d), Tabs(mem, d), first, done, last - first + 1);
          return;
        }
        PaidMore(|old(free)|, Tabs(old(mem), d), free1, Tabs(mem1, d), |free|, Tabs(mem, d), first, done);
        OwnStep(old(mem), old(own), mem1, own1, mem, own, d, first, done, pf);
        RangeStep(old(mem), mem1, mem, own1, own, d, first, done, pf, perm);
        done := done + 1;
        if a == last {
          PaidAll(|old(free)|, Tabs(old(mem), d), |free|, Tabs(mem, d), first, done);
          return;
        }
        a := a + 1;
      }
    }

    /** A present page v of directory d, in page table t, is freed and its entry cleared. */
    method FreePage(d: nat, v: nat, t: nat)
      requires Valid() && IsDir(d) && v < KERNPAGE && t < |own| && own[t] == Tab(d, v / NPT)
      requires Lookup(mem, d, v).Present?
      modifies this
      ensures Valid() && IsDir(d) && MapSet(old(mem), mem, own, d, v, Absent)
      ensures var f := old(Lookup(mem, d, v).frame);
              f < |own| && old(own)[f] == User(d, v) && own == old(own)[f := Free]
      ensures DataKept(old(mem), mem, own)
    {
      hide Inv, MapSet, Lookup, FreeList;
      TabIsTable(mem, own, t);
      Unmap(mem, own, d, v, t);
      TabEntry(mem, own, d, v, t);
      var f := mem[t].e[v % NPT].frame;
      FreeListPush(free, own, f);
      free := [f] + free;
      mem := mem[f := Junk];
      own := own[f := Free];
      mem := SetEntry(mem, t, v % NPT, Absent);
    }

    /** deallocuvm: the user pages from newsz, rounded up, to oldsz are freed.  Where a page table is missing it skips
        to the next one. */
    method Deallocuvm(d: nat, oldsz: nat, newsz: nat) returns (r: nat)
      requires Valid() && IsDir(d) && oldsz <= KERNBASE
      modifies this
      ensures Valid() && IsDir(d) && r == if newsz >= oldsz then oldsz else newsz
      ensures newsz >= oldsz ==> unchanged(this)
      ensures newsz < oldsz ==>
                && Unmapped(old(mem), mem, own, d, Pages(newsz), Pages(oldsz))
                && Released(old(own), own, d, Pages(newsz), Pages(oldsz)) && DataKept(old(mem), mem, own)
    {
      hide Inv, Unmapped, Lookup, Entry, FreeList;
      if newsz >= oldsz {
        return oldsz;
      }
      var a := Pages(newsz) * PGSIZE;
      UnmappedNone(mem, own, d, Pages(newsz));
      while a < oldsz
        invariant a % PGSIZE == 0 && Pages(newsz) <= a / PGSIZE
        invariant Valid() && IsDir(d)
        invariant Unmapped(old(mem), mem, own, d, Pages(newsz), Min(a / PGSIZE, Pages(oldsz)))
        invariant Released(old(own), own, d, Pages(newsz), Min(a / PGSIZE, Pages(oldsz)))
        invariant DataKept(old(mem), mem, own)
        decreases KERNBASE + 0x40_0000 - a
      {
        var v := a / PGSIZE;
        ghost var mem1, own1 := mem, own;
        var t := Walk(d, v, false);
        if t < 0 {
          a := (v / NPT + 1) * NPT * PGSIZE - PGSIZE;
          SkipTable(old(mem), mem, old(own), own, d, Pages(newsz), v, Min(a / PGSIZE + 1, Pages(oldsz)));
        } else {
          TabIsTable(mem, own, t);
          TabEntry(mem, own, d, v, t);
          if mem[t].e[v % NPT].Present? {
            FreePage(d, v, t);
          }
          UnmapStep(old(mem), mem1, mem, old(own), own1, own, d, Pages(newsz), v);
        }
        a := a + PGSIZE;
      }
      r := newsz;
    }

    /** The loop of freevm over the page tables of d, which has been given up: own1 tells whose they were. */
    method FreeTables(d: nat, ghost own1: seq<Owner>)
      requires Valid() && Inv(mem, own1) && d < |own1| && own1[d].Dir? && TablesFreed(own1, own, d, 0)
      modifies this
      ensures Valid() && TablesFreed(own1, own, d, NPT)
      ensures SameMaps(old(mem), mem, own) && DataKept(old(mem), mem, own)
    {
      hide Inv, Lookup, Entry, SameMaps, FreeList;
      ghost var mem1 := mem;
      EntryOwner(mem, own1, d, 0);
      SameMapsSelf(mem, own);
      var i := 0;
      while i < NPT
        invariant i <= NPT && Valid() && |mem| == |mem1| && mem[d] == mem1[d]
        invariant TablesFreed(own1, own, d, i)
        invariant SameMaps(mem1, mem, own) && DataKept(mem1, mem, own)
      {
        ghost var mem2, own2 := mem, own;
        EntryOwner(mem1, own1, d, i);
        if mem[d].e[i].Present? {
          Kfree(mem[d].e[i].frame);
          SameMapsOwn(mem1, mem2, own2, own);
          SameMapsTwice(mem1, mem2, mem, own);
        }
        i := i + 1;
      }
    }

    /** freevm: everything that belongs to directory d becomes free. */
    method Freevm(d: nat)
      requires Valid() && IsDir(d)
      modifies this
      ensures Valid() && AllFreed(old(own), own, d) && SameMaps(old(mem), mem, own) && DataKept(old(mem), mem, own)
    {
      hide Inv, Unmapped, Lookup, Entry, SameMaps, Belongs, DataKept, AllFreed, TablesFreed, Released, FreeList;
      var r := Deallocuvm(d, KERNBASE, 0);
      ghost var mem1, own1 := mem, own;
      NoUsersLeft(old(own), mem1, own1, d);
      own := Retirement(own, d, |own|);
      Retire(mem, own1, own, d);
      RetiredFreed(own1, own, d, free);
      OthersSame(old(mem), mem, own1, own, d, Pages(0), Pages(KERNBASE));
      ghost var own2 := own;
      FreeTables(d, own1);
      ghost var mem3, own3 := mem, own;
      SameMapsOwn(old(mem), mem1, own2, own3) by { FewerDirs(own1, own2, own3, d); }
      SameMapsTwice(old(mem), mem1, mem3, own3);
      DirLoose(own1, own3, d);
      Kfree(d);
      SameMapsOwn(old(mem), mem3, own3, own);
      SameMapsTwice(old(mem), mem3, mem, own);
      assert own[d := Loose] == own3;
      FreedAll(old(own), mem1, own1, own, d);
      FreedData(old(mem), mem1, mem3, own1, own3, d);
    }

    /** A new frame with the given bytes, or -1. */
    method NewPage(bytes: seq<Byte>) returns (f: int)
      requires Valid()
      modifies this
      ensures Valid() && -1 <= f < |own| == |old(own)| && |mem| == |old(mem)| && SameMaps(old(mem), mem, own)
      ensures f < 0 ==> unchanged(this) && NoneFree(own) && |free| == 0
      ensures f >= 0 ==>
                old(own)[f].Free? && own == old(own)[f := Loose] && mem == old(mem)[f := Data(bytes)]
                  && |free| == |old(free)| - 1
    {
      hide Inv, SameMaps, FreeList;
      SameMapsSelf(mem, own);
      f := Kalloc();
      if f >= 0 {
        LooseMem(mem, own, f, Data(bytes));
        mem := mem[f := Data(bytes)];
      }
    }

    /** The way out of allocuvm: deallocuvm takes back what was mapped. */
    method Undo(d: nat, oldsz: nat, newsz: nat, ghost extra: int, ghost mem0: seq<Frame>, ghost own0: seq<Owner>,
                ghost v: nat)
      requires Valid() && IsDir(d) && oldsz < newsz <= KERNBASE && Pages(oldsz) <= v <= Pages(newsz)
      requires Inv(mem0, own0) && Alloced(mem0, own0, mem, own, d, Pages(oldsz), v, extra) && d < |own0| && own0[d].Dir?
      requires forall y: nat | Pages(oldsz) <= y < Pages(newsz) :: Lookup(mem0, d, y).Absent?
      modifies this
      ensures Valid() && IsDir(d) && SameMaps(mem0, mem, own) && Undone(own0, own, d, extra)
      ensures DataKept(mem0, mem, own0)
      ensures |own| == old(|own|) && (0 <= extra < |own| && old(own)[extra].Loose? ==> own[extra].Loose?)
    {
      hide Inv, Alloced, Lookup, SameMaps, Undone, DataKept, FreeList;
      ghost var mem1, own1 := mem, own;
      var r := Deallocuvm(d, newsz, oldsz);
      AllocUndo(mem0, own0, mem1, own1, mem, own, d, Pages(oldsz), v, Pages(newsz), extra);
    }

    /** allocuvm: zeroed pages for the process to grow from oldsz to newsz.  If memory runs out, the pages already
        mapped are unmapped and freed again. */
    method Allocuvm(d: nat, oldsz: nat, newsz: nat) returns (r: nat, ghost ok: bool)
      requires Valid() && IsDir(d) && oldsz <= KERNBASE
      requires forall v: nat | Pages(oldsz) <= v < Pages(newsz) && v < KERNPAGE :: Lookup(mem, d, v).Absent?
      modifies this
      ensures Valid() && IsDir(d)
      ensures r == if newsz >= KERNBASE then 0 else if newsz < oldsz then oldsz else if ok then newsz else 0
      ensures newsz >= KERNBASE || newsz < oldsz ==> unchanged(this)
      ensures oldsz <= newsz < KERNBASE && ok ==>
                Alloced(old(mem), old(own), mem, own, d, Pages(oldsz), Pages(newsz), -1)
      ensures oldsz <= newsz < KERNBASE && !ok ==>
                SameMaps(old(mem), mem, own) && TablesAdded(old(own), own, d) && DataKept(old(mem), mem, old(own))
      ensures oldsz <= newsz < KERNBASE ==>
                (ok <==> |old(free)| >= Needed(Tabs(old(mem), d), Pages(oldsz), Pages(newsz)))
    {
      hide Inv, Alloced, Lookup, SameMaps, RangeMapped, Tabs, Paid, Spent, Needed, TablesAdded, DataKept, FreeList;
      ok := true;
      if newsz >= KERNBASE {
        return 0, true;
      }
      if newsz < oldsz {
        return oldsz, true;
      }
      ghost var mem0, own0 := mem, own;
      ghost var lo, hi, tabs0 := Pages(oldsz), Pages(newsz), Tabs(mem, d);
      AllocedNone(mem, own, d, lo);
      SpentNone(|free|, tabs0, lo);
      var a := Pages(oldsz) * PGSIZE;
      while a < newsz
        invariant a % PGSIZE == 0 && lo <= a / PGSIZE <= Max(lo, hi)
        invariant Valid() && IsDir(d)
        invariant Alloced(mem0, own0, mem, own, d, lo, a / PGSIZE, -1)
        invariant Spent(|old(free)|, tabs0, |free|, Tabs(mem, d), lo, a / PGSIZE)
      {
        ghost var v, tabs1, free1 := a / PGSIZE, Tabs(mem, d), |free|;
        var got, f := AllocPage(d, a / PGSIZE, mem0, own0, lo);
        if !got {
          SpentOut(|old(free)|, tabs0, free1, tabs1, lo, v, hi);
          Undo(d, oldsz, newsz, f, mem0, own0, v);
          if f >= 0 {
            ghost var mem3, own3 := mem, own;
            Kfree(f);
            SameMapsOwn(mem0, mem3, own3, own);
            SameMapsTwice(mem0, mem3, mem, own);
            UndoneTables(own0, own3, mem0, mem3, d, f);
          } else {
            UndoneTables(own0, own, mem0, mem, d, f);
          }
          return 0, false;
        }
        SpentMore(|old(free)|, tabs0, free1, tabs1, |free|, Tabs(mem, d), lo, v);
        a := a + PGSIZE;
      }
      SpentAll(|old(free)|, tabs0, |free|, Tabs(mem, d), lo, hi);
      r := newsz;
    }

    /** One round of allocuvm: page v, zeroed.  Without memory for it f is the frame that was taken for it, or
        -1. */
    method AllocPage(d: nat, v: nat, ghost mem0: seq<Frame>, ghost own0: seq<Owner>, ghost lo: nat)
      returns (ok: bool, f: int)
      requires Valid() && IsDir(d) && lo <= v < KERNPAGE
      requires Alloced(mem0, own0, mem, own, d, lo, v, -1) && Lookup(mem0, d, v).Absent?
      modifies this
      ensures Valid() && IsDir(d)
      ensures ok ==> Alloced(mem0, own0, mem, own, d, lo, v + 1, -1)
      ensures !ok ==>
                Alloced(mem0, own0, mem, own, d, lo, v, f) && -1 <= f < |own| == |own0|
                  && (f >= 0 ==> own[f].Loose? && own0[f].Free?)
      ensures ok ==>
                Tabs(mem, d) == Tabs(old(mem), d) + {v / NPT}
                  && |free| + |Tabs(mem, d)| + 1 == |old(free)| + |Tabs(old(mem), d)|
      ensures !ok ==> |old(free)| == 0 || (|old(free)| == 1 && v / NPT !in Tabs(old(mem), d))
    {
      hide Inv, Alloced, Lookup, SameMaps, RangeMapped, Tabs, Paid, TablesAdded, DataKept, ReadyFrames, NoPages,
           NoneFree, GivenAll, Touched, FreeList;
      ghost var mem1, own1 := mem, own;
      AllocedSize(mem0, own0, mem, own, d, lo, v);
      f := NewPage(Zeros(PGSIZE));
      if f < 0 {
        return false, -1;
      }
      FilledNext(mem0, own0, mem1, own1, mem, own, d, lo, v, f);
      SameTabsLoose(mem1, mem, own1, d, f);
      ghost var mem2, own2, done := mem, own, 0;
      OnePage(v, |free|, Tabs(mem, d));
      ReadyOne(mem, own, d, v, f);
      ok, done := Mappages(d, v * PGSIZE, PGSIZE, f, PTE_W + PTE_U);
      if !ok {
        return;
      }
      PaidOne(|free|, |old(free)| - 1, Tabs(mem2, d), Tabs(mem, d), v);
      AllocStep(mem0, own0, mem2, own2, mem, own, d, lo, v, f);
    }

    /** setupkvm: a new directory that maps the kernel's half as kmap says; -1, and everything as before, if memory
        runs out. */
    method Setupkvm(kmap: seq<KRange>) returns (c: int)
      requires Valid() && KmapOk(kmap)
      modifies this
      ensures Valid() && -1 <= c < |own| == |old(own)|
      ensures c >= 0 ==>
                Fresh(old(own), own, c) && Space(old(mem), mem, own, c, kmap, 0) && DataKept(old(mem), mem, old(own))
      ensures c < 0 ==> own == old(own) && SameMaps(old(mem), mem, own) && DataKept(old(mem), mem, old(own))
      ensures Sized(kmap) && (c >= 0 <==> |old(free)| >= 1 + |KTabs(kmap)|)
      ensures c >= 0 ==> KSpent(|old(free)|, |free|, Tabs(mem, c), kmap)
    {
      hide Inv, Lookup, SameMaps, Space, Fresh, KLookup, DataKept, KmapOk, KTabs, KSpent, Tabs, Paid, TablesAdded,
           RangeMapped, GivenAll, FreeList, Enough, NoneFree;
      KSized(kmap);
      ghost var mem0, own0 := mem, own;
      SameMapsSelf(mem, own);
      DataKeptSelf(mem, own);
      c := NewDirectory(kmap);
      if c < 0 {
        return;
      }
      assert kmap[..0] == [];
      KSpentNone(|old(free)|, |free|, Tabs(mem, c));
      var k := 0;
      while k < |kmap|
        invariant k <= |kmap| && Valid() && 0 <= c < |own| == |own0| && IsDir(c)
        invariant Fresh(own0, own, c) && Space(mem0, mem, own, c, kmap[..k], 0) && DataKept(mem0, mem, own0)
        invariant Sized(kmap[..k]) && KSpent(|old(free)|, |free|, Tabs(mem, c), kmap[..k])
      {
        ghost var mem1, own1, free1 := mem, own, |free|;
        var r := kmap[k];
        KernelNext(mem0, mem, own, c, kmap, k);
        var ok;
        ghost var done;
        ok, done := Mappages(c, r.va, r.size, r.pf, r.perm);
        KernelStep(mem0, own0, mem1, own1, mem, own, c, kmap, k, done);
        if !ok {
          KSpentOut(|old(free)|, free1, Tabs(mem1, c), kmap, k);
          ghost var mem2, own2 := mem, own;
          Freevm(c);
          BackAgain(mem0, own0, mem2, own2, mem, own, c);
          return -1;
        }
        KSpentRow(|old(free)|, free1, Tabs(mem1, c), |free|, Tabs(mem, c), kmap, k);
        assert kmap[..k] + [r] == kmap[..k + 1];
        k := k + 1;
      }
      assert kmap[..k] == kmap;
      KSpentAll(|old(free)|, |free|, Tabs(mem, c), kmap);
    }

    /** An empty directory, or -1. */
    method NewDirectory(ghost kmap: seq<KRange>) returns (c: int)
      requires Valid()
      modifies this
      ensures Valid() && -1 <= c < |own| == |old(own)|
      ensures c < 0 ==> unchanged(this) && |free| == 0
      ensures c >= 0 ==> Tabs(mem, c) == {} && |free| == |old(free)| - 1
      ensures c >= 0 ==>
                IsDir(c) && Fresh(old(own), own, c) && Space(old(mem), mem, own, c, [], 0)
                  && DataKept(old(mem), mem, old(own))
    {
      hide Inv, Lookup, SameMaps, FreeList;
      c := Kalloc();
      if c < 0 {
        return;
      }
      ghost var own1 := own;
      LooseMem(mem, own, c, Table(Copies(Absent, NPT)));
      mem := mem[c := Table(Copies(Absent, NPT))];
      NewDir(mem, own, c);
      FreeListKeep(free, own, c, Dir);
      own := own[c := Dir];
      EmptySpace(old(mem), mem, own1, own, c);
      NoTabs(mem, c);
    }

    /** copyuvm: a new directory c with a copy of every page of d below sz; -1, and everything as before, if memory
        runs out. */
    method Copyuvm(d: nat, sz: nat, kmap: seq<KRange>) returns (c: int)
      requires Valid() && IsDir(d) && KmapOk(kmap) && sz <= KERNBASE
      requires forall v: nat | v < Pages(sz) :: Lookup(mem, d, v).Present?
      modifies this
      ensures Valid() && -1 <= c < |own| == |old(own)|
      ensures c >= 0 ==> Fresh(old(own), own, c) && DataKept(old(mem), mem, old(own))
      ensures c >= 0 ==> Copied(old(mem), mem, own, d, c, Pages(sz)) && Space(old(mem), mem, own, c, kmap, Pages(sz))
      ensures c < 0 ==> own == old(own) && SameMaps(old(mem), mem, own) && DataKept(old(mem), mem, old(own))
      ensures Sized(kmap) && (c >= 0 <==> |old(free)| >= 1 + Pages(sz) + |KTabs(kmap) + Touched(0, Pages(sz))|)
    {
      hide Inv, Lookup, SameMaps, Space, Fresh, KLookup, DataKept, KmapOk, Copied, OthersMap, TablesAdded,
           RangeMapped, KTabs, KSpent, Tabs, CSpent, FreeList;
      ghost var mem0, own0 := mem, own;
      c := Setupkvm(kmap);
      if c < 0 {
        Smaller(KTabs(kmap), KTabs(kmap) + Touched(0, Pages(sz)));
        return;
      }
      CopiedNone(mem0, own0, mem, own, d, c);
      CSpentNone(|old(free)|, |free|, Tabs(mem, c), kmap);
      var i := 0;
      while i < sz
        invariant i % PGSIZE == 0 && i / PGSIZE <= Pages(sz) && Valid() && 0 <= c < |own| == |own0| && IsDir(c)
        invariant IsDir(d) && c != d
        invariant Fresh(own0, own, c) && DataKept(mem0, mem, own0)
        invariant Copied(mem0, mem, own, d, c, i / PGSIZE) && Space(mem0, mem, own, c, kmap, i / PGSIZE)
        invariant CSpent(|old(free)|, |free|, Tabs(mem, c), kmap, i / PGSIZE)
      {
        ghost var tabs1, free1 := Tabs(mem, c), |free|;
        var ok := CopyPage(d, c, i / PGSIZE, mem0, own0, kmap);
        if !ok {
          CSpentOut(|old(free)|, free1, tabs1, kmap, i / PGSIZE, Pages(sz));
          ghost var mem2, own2 := mem, own;
          Freevm(c);
          BackAgain(mem0, own0, mem2, own2, mem, own, c);
          return -1;
        }
        CSpentMore(|old(free)|, free1, tabs1, |free|, Tabs(mem, c), kmap, i / PGSIZE);
        i := i + PGSIZE;
      }
      CSpentAll(|old(free)|, |free|, Tabs(mem, c), kmap, Pages(sz));
    }

    /** One round of copyuvm. */
    method CopyPage(d: nat, c: nat, v: nat, ghost mem0: seq<Frame>, ghost own0: seq<Owner>, ghost kmap: seq<KRange>)
      returns (ok: bool)
      requires Valid() && IsDir(d) && IsDir(c) && c != d && v < KERNPAGE && KmapOk(kmap)
      requires Inv(mem0, own0) && d < |own0| && own0[d].Dir? && Lookup(mem0, d, v).Present?
      requires Fresh(own0, own, c) && DataKept(mem0, mem, own0) && Copied(mem0, mem, own, d, c, v)
      requires Space(mem0, mem, own, c, kmap, v)
      modifies this
      ensures Valid() && IsDir(d) && IsDir(c) && |own| == old(|own|) && Fresh(own0, own, c) && DataKept(mem0, mem, own0)
      ensures OthersMap(mem0, mem, own, c)
      ensures ok ==> Copied(mem0, mem, own, d, c, v + 1) && Space(mem0, mem, own, c, kmap, v + 1)
      ensures ok ==>
                Tabs(mem, c) == Tabs(old(mem), c) + {v / NPT}
                  && |free| + |Tabs(mem, c)| + 1 == |old(free)| + |Tabs(old(mem), c)|
      ensures !ok ==> |old(free)| == 0 || (|old(free)| == 1 && v / NPT !in Tabs(old(mem), c))
    {
      hide Inv, Lookup, SameMaps, Space, Fresh, KLookup, DataKept, KmapOk, Copied, OthersMap, TablesAdded,
           RangeMapped, Tabs, Paid, FreeList, Enough, NoneFree, NoPages, ReadyFrames, GivenAll, Touched;
      FreshDirs(own0, own, c, d);
      SpaceOthers(mem0, mem, own, c, kmap, v);
      ParentPage(mem0, own0, mem, own, d, c, kmap, v);
      WalkFound(mem, d, v);
      var t := Walk(d, v, false);
      TabEntry(mem, own, d, v, t);
      var pte := mem[t].e[v % NPT];
      ghost var mem1, own1 := mem, own;
      var f := NewPage(mem[pte.frame].bytes);
      if f < 0 {
        return false;
      }
      ghost var mem2, own2 := mem, own;
      ChildReady(mem0, mem1, mem2, own1, own2, c, kmap, v, f);
      SameTabsLoose(mem1, mem2, own1, c, f);
      OnePage(v, |free|, Tabs(mem, c));
      ghost var done;
      ok, done := Mappages(c, v * PGSIZE, PGSIZE, f, pte.flags);
      if !ok {
        Kfree(f);
        CopyFailed(mem0, own0, mem1, own1, mem2, own2, mem, own, c, f);
        return;
      }
      PaidOne(|free|, |old(free)| - 1, Tabs(mem2, c), Tabs(mem, c), v);
      CopyStep(mem0, own0, mem1, own1, mem2, own2, mem, own, d, c, kmap, v, f);
      FreshDirs(own0, own, c, d);
    }
  }

  /** A row of kmap: size bytes from va on are mapped to the frames from pf on. */
  datatype KRange = KRange(va: nat, size: nat, pf: nat, perm: nat)

  function First(r: KRange): nat { r.va / PGSIZE }

  function Last(r: KRange): (l: nat)
    requires r.size > 0
    ensures First(r) <= l
  {
    (r.va + r.size - 1) / PGSIZE
  }

  /** The rows lie in the kernel's half and have no page in common. */
  ghost predicate KmapOk(kmap: seq<KRange>) {
    && (forall i: nat | i < |kmap| ::
           KERNBASE <= kmap[i].va && 0 < kmap[i].size && kmap[i].va + kmap[i].size <= NPAGES * PGSIZE)
    && (forall i: nat, j: nat | i < j < |kmap| :: Last(kmap[i]) < First(kmap[j]) || Last(kmap[j]) < First(kmap[i]))
  }

  /** The table of src/vm.c; `data` is the address at which the kernel's data begin. */
  function Kmap(data: nat): seq<KRange>
    requires KERNLINK < data < KERNBASE + PHYSTOP
  {
    [KRange(KERNBASE, EXTMEM, 0, PTE_W),
     KRange(KERNLINK, data - KERNLINK, (KERNLINK - KERNBASE) / PGSIZE, 0),
     KRange(data, KERNBASE + PHYSTOP - data, (data - KERNBASE) / PGSIZE, PTE_W),
     KRange(DEVSPACE, 0x1_0000_0000 - DEVSPACE, DEVSPACE / PGSIZE, PTE_W)]
  }

  /** It is such a table exactly when the data begin on a page of their own, as the linker script has it. */
  lemma KmapFits(data: nat)
    requires KERNLINK < data < KERNBASE + PHYSTOP
    ensures KmapOk(Kmap(data)) <==> data % PGSIZE == 0
  {
    var kmap := Kmap(data);
    assert Last(kmap[0]) < First(kmap[1]) && Last(kmap[2]) < First(kmap[3]);
    assert Last(kmap[1]) < First(kmap[2]) <==> data % PGSIZE == 0;
    assert First(kmap[1]) <= Last(kmap[2]);
  }

  /** What kmap says about page v. */
  ghost function KLookup(kmap: seq<KRange>, v: nat): Pte
    requires forall i: nat | i < |kmap| :: kmap[i].size > 0
  {
    if |kmap| == 0 then Absent
    else
      var r := kmap[|kmap| - 1];
      if First(r) <= v <= Last(r) then Present(r.pf + (v - First(r)), r.perm) else KLookup(kmap[..|kmap| - 1], v)
  }

  lemma KLast(kmap: seq<KRange>, k: nat, v: nat)
    requires k < |kmap| && forall i: nat | i < |kmap| :: kmap[i].size > 0
    ensures KLookup(kmap[..k + 1], v) ==
              if First(kmap[k]) <= v <= Last(kmap[k]) then Present(kmap[k].pf + (v - First(kmap[k])), kmap[k].perm)
              else KLookup(kmap[..k], v)
  {
    assert kmap[..k + 1][..k] == kmap[..k];
  }

  /** What it says, page by page: physical memory from KERNBASE on, the devices where they are, and nothing else; all
      can be written but the kernel's text. */
  lemma KmapSays(data: nat, v: nat)
    requires KERNLINK < data < KERNBASE + PHYSTOP && v < NPAGES
    ensures KLookup(Kmap(data), v) ==
              if KERNPAGE <= v < KERNPAGE + PHYSTOP / PGSIZE then
                Present(v - KERNPAGE, if KERNPAGE + EXTMEM / PGSIZE <= v < data / PGSIZE then 0 else PTE_W)
              else if DEVSPACE / PGSIZE <= v then Present(v, PTE_W) else Absent
  {
    var kmap := Kmap(data);
    KLast(kmap, 0, v);
    KLast(kmap, 1, v);
    KLast(kmap, 2, v);
    KLast(kmap, 3, v);
    assert kmap[..4] == kmap;
    hide KLookup;
    assert (data - KERNBASE) / PGSIZE == data / PGSIZE - KERNPAGE;
    assert Last(kmap[0]) + 1 == First(kmap[1]) && Last(kmap[1]) <= First(kmap[2]) <= Last(kmap[1]) + 1;
  }

  /** In a directory with these mappings a process cannot use any page of the kernel's half, and the kernel can write
      just those pages that are not its text. */
  lemma KernelApart(mem0: seq<Frame>, mem: seq<Frame>, own: seq<Owner>, c: nat, data: nat, v: nat)
    requires KERNLINK < data < KERNBASE + PHYSTOP && Inv(mem, own) && c < |own| && own[c].Dir?
    requires Space(mem0, mem, own, c, Kmap(data), KERNPAGE) && KERNPAGE <= v < NPAGES
    ensures !Allows(mem, c, v, PTE_U)
    ensures Allows(mem, c, v, PTE_W) <==>
              DEVSPACE / PGSIZE <= v
              || (v < KERNPAGE + PHYSTOP / PGSIZE && !(KERNPAGE + EXTMEM / PGSIZE <= v < data / PGSIZE))
  {
    hide Lookup, Kmap, KLookup, Allows, Inv;
    KmapSays(data, v);
    AllowsExact(mem, own, c, v, PTE_U);
    AllowsExact(mem, own, c, v, PTE_W);
  }

  /** c was a free frame and is a directory; apart from it and what belongs to it no frame changed hands. */
  ghost predicate Fresh(own0: seq<Owner>, own: seq<Owner>, c: nat) {
    && |own| == |own0| && c < |own| && own[c].Dir? && own0[c].Free?
    && forall f: nat | f < |own| :: own[f] == own0[f] || (own0[f].Free? && Belongs(own, f, c))
  }

  /** From page n on, c maps what kmap says; the other directories map what they did. */
  ghost predicate Space(mem0: seq<Frame>, mem: seq<Frame>, own: seq<Owner>, c: nat, kmap: seq<KRange>, n: nat) {
    && (forall i: nat | i < |kmap| :: kmap[i].size > 0)
    && (forall v: nat | n <= v < NPAGES :: Lookup(mem, c, v) == KLookup(kmap, v))
    && (forall x: nat, v: nat | x < |own| && own[x].Dir? && x != c && v < NPAGES ::
           Lookup(mem, x, v) == Lookup(mem0, x, v))
  }

  lemma DataKeptSelf(mem: seq<Frame>, own: seq<Owner>)
    ensures DataKept(mem, mem, own)
  {
  }

  lemma EmptySpace(mem0: seq<Frame>, mem: seq<Frame>, own1: seq<Owner>, own: seq<Owner>, c: nat)
    requires SameMaps(mem0, mem, own1) && c < |own1| && own == own1[c := Dir] && forall v: nat ::
               Lookup(mem, c, v) == Absent
    ensures Space(mem0, mem, own, c, [], 0)
  {
    hide Lookup;
  }

  /** The rows so far leave the pages of row k alone. */
  lemma {:induction false} KFree(kmap: seq<KRange>, k: nat, j: nat, v: nat)
    requires KmapOk(kmap) && j <= k < |kmap| && First(kmap[k]) <= v <= Last(kmap[k])
    ensures KLookup(kmap[..j], v).Absent?
    decreases j
  {
    if j > 0 {
      assert kmap[..j][..j - 1] == kmap[..j - 1];
      KFree(kmap, k, j - 1, v);
    }
  }

  lemma KernelNext(mem0: seq<Frame>, mem: seq<Frame>, own: seq<Owner>, c: nat, kmap: seq<KRange>, k: nat)
    requires KmapOk(kmap) && k < |kmap| && Space(mem0, mem, own, c, kmap[..k], 0)
    ensures var r := kmap[k];
            && KERNBASE <= r.va && 0 < r.size && r.va + r.size <= NPAGES * PGSIZE
            && NoPages(mem, c, First(r), Last(r))
            && ReadyFrames(mem, own, First(r), Last(r), r.pf)
  {
    hide Lookup;
    var r := kmap[k];
    forall v: nat | First(r) <= v <= Last(r) ensures Lookup(mem, c, v).Absent? {
      KFree(kmap, k, k, v);
    }
  }

  /** The directories other than c map what they did. */
  ghost predicate OthersMap(mem0: seq<Frame>, mem: seq<Frame>, own: seq<Owner>, c: nat) {
    forall x: nat, v: nat | x < |own| && own[x].Dir? && x != c && v < NPAGES :: Lookup(mem, x, v) == Lookup(mem0, x, v)
  }

  /** Row k has been mapped, or some of it. */
  lemma KernelStep(mem0: seq<Frame>, own0: seq<Owner>, mem1: seq<Frame>, own1: seq<Owner>, mem2: seq<Frame>,
                   own2: seq<Owner>,
                   c: nat, kmap: seq<KRange>, k: nat, done: nat)
    requires KmapOk(kmap) && k < |kmap| && Fresh(own0, own1, c) && Space(mem0, mem1, own1, c, kmap[..k], 0)
    requires DataKept(mem0, mem1, own0)
    requires var r := kmap[k];
             && RangeMapped(mem1, mem2, own2, c, First(r), done, r.pf, r.perm)
             && TablesAdded(GivenAll(own1, c, First(r), done, r.pf), own2, c) && DataKept(mem1, mem2, own1)
    ensures Fresh(own0, own2, c) && |own2| == |own0| && DataKept(mem0, mem2, own0) && OthersMap(mem0, mem2, own2, c)
    ensures done == Last(kmap[k]) - First(kmap[k]) + 1 ==> Space(mem0, mem2, own2, c, kmap[..k + 1], 0)
  {
    hide Lookup;
    assert GivenAll(own1, c, First(kmap[k]), done, kmap[k].pf) == own1;
    assert kmap[..k + 1][..k] == kmap[..k];
  }

  /** After freevm of a directory that was new, every frame is where it was. */
  lemma BackAgain(mem0: seq<Frame>, own0: seq<Owner>, mem2: seq<Frame>, own2: seq<Owner>, mem3: seq<Frame>,
                  own3: seq<Owner>, c: nat)
    requires Inv(mem0, own0) && Fresh(own0, own2, c) && AllFreed(own2, own3, c)
    requires OthersMap(mem0, mem2, own2, c) && SameMaps(mem2, mem3, own3)
    requires DataKept(mem0, mem2, own0) && DataKept(mem2, mem3, own3)
    ensures own3 == own0 && SameMaps(mem0, mem3, own3) && DataKept(mem0, mem3, own0)
  {
  }

  /** Page v of c has its own frame, with the bytes and flags of page v of d. */
  ghost predicate CopyOf(mem0: seq<Frame>, mem: seq<Frame>, own: seq<Owner>, d: nat, c: nat, v: nat) {
    var p, q := Lookup(mem0, d, v), Lookup(mem, c, v);
    && p.Present? && q.Present? && q.flags == p.flags && q.frame < |own| && own[q.frame] == User(c, v)
    && p.frame < |mem0| && q.frame < |mem| && mem[q.frame] == mem0[p.frame] && q.frame != p.frame
  }

  ghost predicate Copied(mem0: seq<Frame>, mem: seq<Frame>, own: seq<Owner>, d: nat, c: nat, n: nat) {
    forall v: nat | v < n :: CopyOf(mem0, mem, own, d, c, v)
  }

  lemma CopiedNone(mem0: seq<Frame>, own0: seq<Owner>, mem: seq<Frame>, own: seq<Owner>, d: nat, c: nat)
    requires Fresh(own0, own, c) && d < |own0| && own0[d].Dir?
    ensures Copied(mem0, mem, own, d, c, 0) && own[d].Dir? && c != d && own[c].Dir?
  {
  }

  lemma FreshDirs(own0: seq<Owner>, own: seq<Owner>, c: nat, d: nat)
    requires Fresh(own0, own, c) && d < |own0| && own0[d].Dir?
    ensures |own| == |own0| && own[d].Dir? && own[c].Dir?
  {
  }

  lemma SpaceOthers(mem0: seq<Frame>, mem: seq<Frame>, own: seq<Owner>, c: nat, kmap: seq<KRange>, n: nat)
    requires Space(mem0, mem, own, c, kmap, n)
    ensures OthersMap(mem0, mem, own, c)
  {
  }

  /** The parent's page is as it was at the start, and its frame holds the same data. */
  lemma ParentPage(mem0: seq<Frame>, own0: seq<Owner>, mem: seq<Frame>, own: seq<Owner>, d: nat, c: nat,
                   kmap: seq<KRange>, v: nat)
    requires Inv(mem0, own0) && d < |own0| && own0[d].Dir? && v < KERNPAGE && Lookup(mem0, d, v).Present? && d != c
    requires Fresh(own0, own, c) && DataKept(mem0, mem, own0) && Space(mem0, mem, own, c, kmap, v) && own[d].Dir?
    ensures Lookup(mem, d, v) == Lookup(mem0, d, v)
    ensures var f := Lookup(mem0, d, v).frame;
            && f < |mem0| && f < |mem| && f < |own0|
            && own0[f] == User(d, v) && mem[f] == mem0[f] && mem0[f].Data?
  {
    hide Lookup, Entry;
  }

  lemma WalkFound(mem: seq<Frame>, d: nat, v: nat)
    requires Lookup(mem, d, v).Present?
    ensures Entry(mem, d, v / NPT).Present?
  {
  }

  /** kmap has no page of the user half. */
  lemma {:induction false} KUser(kmap: seq<KRange>, j: nat, v: nat)
    requires KmapOk(kmap) && j <= |kmap| && v < KERNPAGE
    ensures KLookup(kmap[..j], v).Absent?
    decreases j
  {
    if j > 0 {
      assert kmap[..j][..j - 1] == kmap[..j - 1];
      KUser(kmap, j - 1, v);
    }
  }

  lemma ChildReady(mem0: seq<Frame>, mem1: seq<Frame>, mem2: seq<Frame>, own1: seq<Owner>, own2: seq<Owner>, c: nat,
                   kmap: seq<KRange>, v: nat, f: nat)
    requires KmapOk(kmap) && Space(mem0, mem1, own1, c, kmap, v) && v < KERNPAGE && c < |own1| && own1[c].Dir?
    requires f < |own1| == |mem2| && own1[f].Free? && own2 == own1[f := Loose] && mem2[f].Data?
    requires SameMaps(mem1, mem2, own2)
    ensures NoPages(mem2, c, v, v) && ReadyFrames(mem2, own2, v, v, f)
    ensures v * PGSIZE / PGSIZE == v && (v * PGSIZE + PGSIZE - 1) / PGSIZE == v
    ensures v * PGSIZE + PGSIZE <= NPAGES * PGSIZE
  {
    KUser(kmap, |kmap|, v);
    assert kmap[..|kmap|] == kmap;
    hide Lookup;
  }

  lemma CopyFailed(mem0: seq<Frame>, own0: seq<Owner>, mem1: seq<Frame>, own1: seq<Owner>, mem2: seq<Frame>,
                   own2: seq<Owner>,
                   mem3: seq<Frame>, own3: seq<Owner>, c: nat, f: nat)
    requires Fresh(own0, own1, c) && DataKept(mem0, mem1, own0) && OthersMap(mem0, mem1, own1, c)
    requires f < |own1| == |mem1| && own1[f].Free? && own2 == own1[f := Loose] && own3 == own2[f := Free]
    requires |mem2| == |mem1| && mem2 == mem1[f := mem2[f]] && mem3 == mem2[f := Junk]
    requires SameMaps(mem1, mem2, own2) && SameMaps(mem2, mem3, own3)
    ensures Fresh(own0, own3, c) && DataKept(mem0, mem3, own0) && OthersMap(mem0, mem3, own3, c)
  {
  }

  lemma CopyStep(mem0: seq<Frame>, own0: seq<Owner>, mem1: seq<Frame>, own1: seq<Owner>, mem2: seq<Frame>,
                 own2: seq<Owner>,
                 mem3: seq<Frame>, own3: seq<Owner>, d: nat, c: nat, kmap: seq<KRange>, v: nat, f: nat)
    requires Fresh(own0, own1, c) && DataKept(mem0, mem1, own0) && Copied(mem0, mem1, own1, d, c, v)
    requires Space(mem0, mem1, own1, c, kmap, v)
    requires f < |own1| == |mem1| && own1[f].Free? && own2 == own1[f := Loose] && SameMaps(mem1, mem2, own2)
    requires v < KERNPAGE
    requires |mem2| == |mem1| && mem2 == mem1[f := mem2[f]] && c < |own3| && own3[c].Dir?
    requires var p := Lookup(mem0, d, v);
             && p.Present? && p.frame < |mem0| && p.frame < |own0| && own0[p.frame] == User(d, v)
             && mem2[f] == mem0[p.frame]
             && RangeMapped(mem2, mem3, own3, c, v, 1, f, p.flags)
    requires TablesAdded(GivenAll(own2, c, v, 1, f), own3, c) && DataKept(mem2, mem3, own2)
    ensures Fresh(own0, own3, c) && DataKept(mem0, mem3, own0) && OthersMap(mem0, mem3, own3, c)
    ensures Copied(mem0, mem3, own3, d, c, v + 1) && Space(mem0, mem3, own3, c, kmap, v + 1)
  {
    hide Lookup, KLookup;
    assert own0[f].Free?;
    forall y: nat | y < v + 1 ensures CopyOf(mem0, mem3, own3, d, c, y) {
      assert y < v ==> CopyOf(mem0, mem1, own1, d, c, y);
    }
  }

  function Max(a: nat, b: nat): nat { if a < b then b else a }

  /** Page v of d is a zeroed page that belongs to it. */
  ghost predicate ZeroPage(mem: seq<Frame>, own: seq<Owner>, d: nat, v: nat) {
    var p := Lookup(mem, d, v);
    && p.Present? && p.flags == PTE_W + PTE_U && p.frame < |own| && p.frame < |mem|
    && own[p.frame] == User(d, v) && mem[p.frame] == Data(Zeros(PGSIZE))
  }

  /** Directory d has got zeroed pages from lo up to hi, in frames that were free; free frames may have become page
      tables of d, and frame `extra` may be taken; all else is as before. */
  ghost predicate Alloced(mem0: seq<Frame>, own0: seq<Owner>, mem: seq<Frame>, own: seq<Owner>, d: nat, lo: nat,
                          hi: nat, extra: int) {
    && |own| == |own0|
    && (forall x: nat, y: nat | x < |own| && own[x].Dir? && y < NPAGES && !(x == d && lo <= y < hi) ::
           Lookup(mem, x, y) == Lookup(mem0, x, y))
    && (forall y: nat | lo <= y < hi :: ZeroPage(mem, own, d, y))
    && (forall f: nat | f < |own| ::
          || own[f] == own0[f]
          || (own0[f].Free?
            && ((f == extra && own[f].Loose?) || (own[f].Tab? && own[f].d == d)
              || (own[f].User? && own[f].d == d && lo <= own[f].v < hi))))
    && DataKept(mem0, mem, own0)
  }

  lemma AllocedNone(mem: seq<Frame>, own: seq<Owner>, d: nat, lo: nat)
    ensures Alloced(mem, own, mem, own, d, lo, lo, -1)
  {
    hide Lookup;
  }

  lemma AllocedSize(mem0: seq<Frame>, own0: seq<Owner>, mem: seq<Frame>, own: seq<Owner>, d: nat, lo: nat, v: nat)
    requires Alloced(mem0, own0, mem, own, d, lo, v, -1)
    ensures |own| == |own0|
  {
  }

  /** The frame for the next page has been taken and filled. */
  lemma FilledNext(mem0: seq<Frame>, own0: seq<Owner>, mem1: seq<Frame>, own1: seq<Owner>, mem2: seq<Frame>,
                   own2: seq<Owner>, d: nat, lo: nat, v: nat, f: nat)
    requires Alloced(mem0, own0, mem1, own1, d, lo, v, -1) && f < |own1| == |mem1| && own1[f].Free?
    requires own2 == own1[f := Loose]
    requires mem2 == mem1[f := Data(Zeros(PGSIZE))] && SameMaps(mem1, mem2, own2) && d < |own1| && own1[d].Dir?
    requires v < NPAGES
    ensures Alloced(mem0, own0, mem2, own2, d, lo, v, f) && Lookup(mem2, d, v) == Lookup(mem0, d, v) && own0[f].Free?
  {
    hide Lookup;
    forall y: nat | lo <= y < v ensures ZeroPage(mem2, own2, d, y) {
      assert ZeroPage(mem1, own1, d, y);
    }
  }

  /** Only page tables have been added; `extra` may still be taken. */
  ghost predicate Undone(own0: seq<Owner>, own: seq<Owner>, d: nat, extra: int) {
    && |own| == |own0|
    && forall f: nat | f < |own| ::
         own[f] == own0[f] || (own0[f].Free? && ((own[f].Tab? && own[f].d == d) || (f == extra && own[f].Loose?)))
  }

  lemma AllocUndo(mem0: seq<Frame>, own0: seq<Owner>, mem1: seq<Frame>, own1: seq<Owner>, mem2: seq<Frame>,
                  own2: seq<Owner>,
                  d: nat, lo: nat, v: nat, hi: nat, extra: int)
    requires Inv(mem0, own0) && d < |own0| && own0[d].Dir? && lo <= v <= hi <= KERNPAGE
    requires Alloced(mem0, own0, mem1, own1, d, lo, v, extra)
    requires forall y: nat | lo <= y < hi :: Lookup(mem0, d, y).Absent?
    requires Unmapped(mem1, mem2, own2, d, lo, hi) && Released(own1, own2, d, lo, hi) && DataKept(mem1, mem2, own2)
    ensures SameMaps(mem0, mem2, own2) && Undone(own0, own2, d, extra) && DataKept(mem0, mem2, own0)
  {
    hide Lookup, Tables;
  }

  lemma AllocStep(mem0: seq<Frame>, own0: seq<Owner>, mem2: seq<Frame>, own2: seq<Owner>, mem3: seq<Frame>,
                  own3: seq<Owner>, d: nat, lo: nat, v: nat, f: nat)
    requires Alloced(mem0, own0, mem2, own2, d, lo, v, f) && f < |own2| == |mem2| && own2[f].Loose?
    requires mem2[f] == Data(Zeros(PGSIZE))
    requires lo <= v < KERNPAGE && d < |own3| && own3[d].Dir? && own0[f].Free?
    requires RangeMapped(mem2, mem3, own3, d, v, 1, f, PTE_W + PTE_U)
    requires TablesAdded(GivenAll(own2, d, v, 1, f), own3, d)
    requires DataKept(mem2, mem3, own2)
    ensures Alloced(mem0, own0, mem3, own3, d, lo, v + 1, -1)
  {
    hide Lookup;
    forall y: nat | lo <= y < v + 1 ensures ZeroPage(mem3, own3, d, y) {
      assert y < v ==> ZeroPage(mem2, own2, d, y);
    }
  }

  lemma RetiredFreed(own1: seq<Owner>, own2: seq<Owner>, d: nat, free: seq<nat>)
    requires Retired(own1, own2, d) && FreeList(free, own1)
    ensures TablesFreed(own1, own2, d, 0) && FreeList(free, own2)
  {
  }

  lemma FewerDirs(own1: seq<Owner>, own2: seq<Owner>, own3: seq<Owner>, d: nat)
    requires TablesFreed(own1, own2, d, 0) && TablesFreed(own1, own3, d, NPT)
    ensures |own2| == |own3| && forall f: nat | f < |own2| && own3[f].Dir? :: own2[f].Dir?
  {
  }

  lemma DirLoose(own1: seq<Owner>, own3: seq<Owner>, d: nat)
    requires TablesFreed(own1, own3, d, NPT) && d < |own1| && own1[d].Dir?
    ensures |own3| == |own1| && own3[d].Loose?
  {
  }

  lemma FreedData(mem0: seq<Frame>, mem1: seq<Frame>, mem3: seq<Frame>, own1: seq<Owner>, own3: seq<Owner>, d: nat)
    requires Inv(mem1, own1) && d < |own1| && own1[d].Dir? && TablesFreed(own1, own3, d, NPT) && |mem3| == |own1|
    requires forall f: nat | f < |own1| && own1[f].User? :: own1[f].d != d
    requires DataKept(mem0, mem1, own1) && DataKept(mem1, mem3, own3)
    ensures DataKept(mem0, mem3[d := Junk], own3[d := Free])
  {
    hide Entry, Lookup, Users;
  }

  /** Everything of directory d has become free; no other frame changed hands. */
  ghost predicate AllFreed(own1: seq<Owner>, own2: seq<Owner>, d: nat) {
    && |own1| == |own2|
    && forall f: nat | f < |own1| :: own2[f] == if Belongs(own1, f, d) then Free else own1[f]
  }

  /** freevm has freed the page tables in the entries below i; the rest of d is given up and not yet free. */
  ghost predicate TablesFreed(own1: seq<Owner>, own2: seq<Owner>, d: nat, i: nat) {
    && |own1| == |own2|
    && forall f: nat | f < |own1| ::
         own2[f] == if own1[f].Tab? && own1[f].d == d && own1[f].i < i then Free
                    else if Belongs(own1, f, d) then Loose else own1[f]
  }

  ghost function Retirement(own: seq<Owner>, d: nat, n: nat): (r: seq<Owner>)
    requires n <= |own|
    ensures |r| == n && forall f: nat | f < n :: r[f] == if Belongs(own, f, d) then Loose else own[f]
  {
    if n == 0 then [] else Retirement(own, d, n - 1) + [if Belongs(own, n - 1, d) then Loose else own[n - 1]]
  }

  lemma NoUsersLeft(own0: seq<Owner>, mem1: seq<Frame>, own1: seq<Owner>, d: nat)
    requires Inv(mem1, own1) && Released(own0, own1, d, 0, KERNPAGE)
    ensures forall f: nat | f < |own1| && own1[f].User? :: own1[f].d != d
  {
    hide Entry, Lookup, Tables;
  }

  lemma OthersSame(mem0: seq<Frame>, mem: seq<Frame>, own1: seq<Owner>, own2: seq<Owner>, d: nat, lo: nat, hi: nat)
    requires Unmapped(mem0, mem, own1, d, lo, hi) && Retired(own1, own2, d)
    ensures SameMaps(mem0, mem, own2)
  {
    hide Lookup;
  }

  /** Directory entry i names the one frame that is table i. */
  lemma EntryOwner(mem: seq<Frame>, own: seq<Owner>, d: nat, i: nat)
    requires Inv(mem, own) && d < |own| && own[d].Dir? && i < NPT
    ensures IsTable(mem, d)
    ensures mem[d].e[i].Present? ==> mem[d].e[i].frame < |own| && own[mem[d].e[i].frame] == Tab(d, i)
    ensures forall f: nat | f < |own| && own[f] == Tab(d, i) :: mem[d].e[i].Present? && mem[d].e[i].frame == f
  {
    assert IsTable(mem, d);
    assert Entry(mem, d, i) == mem[d].e[i];
    hide Entry, Lookup, Users;
  }

  lemma FreedAll(own0: seq<Owner>, mem1: seq<Frame>, own1: seq<Owner>, own: seq<Owner>, d: nat)
    requires Inv(mem1, own1) && d < |own1| && own1[d].Dir? && Released(own0, own1, d, 0, KERNPAGE)
    requires |own| == |own1| && TablesFreed(own1, own[d := Loose], d, NPT) && own[d].Free?
    ensures AllFreed(own0, own, d)
  {
  }

  /** How many pages n bytes take. */
  /** The pages that n bytes take. */
  function Pages(n: nat): (p: nat)
    ensures n <= p * PGSIZE < n + PGSIZE
  {
    (n + PGSIZE - 1) / PGSIZE
  }

  function Min(a: nat, b: nat): nat { if a < b then a else b }

  /** Directory d maps no page from lo up to hi; all else is as before. */
  ghost predicate Unmapped(mem1: seq<Frame>, mem2: seq<Frame>, own: seq<Owner>, d: nat, lo: nat, hi: nat) {
    forall x: nat, y: nat | x < |own| && own[x].Dir? && y < NPAGES ::
      Lookup(mem2, x, y) == if x == d && lo <= y < hi then Absent else Lookup(mem1, x, y)
  }

  /** The frames of those pages have become free; no other frame changed hands. */
  ghost predicate Released(own1: seq<Owner>, own2: seq<Owner>, d: nat, lo: nat, hi: nat) {
    && |own1| == |own2|
    && forall f: nat | f < |own1| ::
         own2[f] == if own1[f].User? && own1[f].d == d && lo <= own1[f].v < hi then Free else own1[f]
  }

  lemma UnmappedNone(mem: seq<Frame>, own: seq<Owner>, d: nat, lo: nat)
    ensures Unmapped(mem, mem, own, d, lo, lo) && Released(own, own, d, lo, lo) && DataKept(mem, mem, own)
  {
  }

  /** Without a page table there is nothing to unmap. */
  lemma SkipTable(mem0: seq<Frame>, mem: seq<Frame>, own0: seq<Owner>, own: seq<Owner>, d: nat, lo: nat, v: nat,
                  hi: nat)
    requires Inv(mem, own) && d < |own| && own[d].Dir? && Entry(mem, d, v / NPT).Absent?
    requires Unmapped(mem0, mem, own, d, lo, v) && Released(own0, own, d, lo, v)
    requires lo <= v <= hi <= KERNPAGE && hi <= (v / NPT + 1) * NPT
    ensures Unmapped(mem0, mem, own, d, lo, hi) && Released(own0, own, d, lo, hi)
  {
    forall y: nat | v <= y < hi ensures Lookup(mem, d, y) == Absent {
      assert y / NPT == v / NPT;
    }
    hide Lookup, Entry;
  }

  /** Page v is absent, or was freed. */
  lemma UnmapStep(mem0: seq<Frame>, mem1: seq<Frame>, mem2: seq<Frame>, own0: seq<Owner>, own1: seq<Owner>,
                  own2: seq<Owner>, d: nat, lo: nat, v: nat)
    requires Inv(mem1, own1) && d < |own1| && own1[d].Dir? && lo <= v < KERNPAGE && |own1| == |own2|
    requires Unmapped(mem0, mem1, own1, d, lo, v) && Released(own0, own1, d, lo, v)
    requires if Lookup(mem1, d, v).Absent? then mem2 == mem1 && own2 == own1
             else
               && MapSet(mem1, mem2, own2, d, v, Absent)
               && var f := Lookup(mem1, d, v).frame; f < |own1| && own2 == own1[f := Free]
    ensures Unmapped(mem0, mem2, own2, d, lo, v + 1) && Released(own0, own2, d, lo, v + 1)
  {
    hide Lookup, Entry, Tables;
  }

  lemma TabEntry(mem: seq<Frame>, own: seq<Owner>, d: nat, v: nat, t: nat)
    requires Inv(mem, own) && t < |own| && own[t] == Tab(d, v / NPT)
    ensures IsTable(mem, t) && Lookup(mem, d, v) == mem[t].e[v % NPT]
  {
  }

  // ---- counting frames ----------------------------------------------------------------------------------

  /** The places of directory d that have a page table. */
  ghost function Tabs(mem: seq<Frame>, d: nat): set<nat> {
    set i: nat | i < NPT && Entry(mem, d, i).Present?
  }

  /** The places that n pages from `first` on need one in. */
  ghost function Touched(first: nat, n: nat): set<nat> {
    if n == 0 then {} else Touched(first, n - 1) + {(first + n - 1) / NPT}
  }

  /** There are as many free frames as page tables are missing for the n pages. */
  ghost predicate Enough(free: nat, tabs: set<nat>, first: nat, n: nat) {
    free >= |Touched(first, n) - tabs|
  }

  lemma HasTab(mem: seq<Frame>, d: nat, i: nat)
    requires i < NPT
    ensures i in Tabs(mem, d) <==> Entry(mem, d, i).Present?
    ensures i in Tabs(mem, d) ==> Tabs(mem, d) + {i} == Tabs(mem, d)
  {
  }

  lemma NewTab(mem0: seq<Frame>, mem1: seq<Frame>, mem2: seq<Frame>, d: nat, i: nat, t: nat)
    requires i < NPT && Entry(mem0, d, i).Absent? && t < |mem0| == |mem1| && t != d && mem1 == mem0[t := mem1[t]]
    requires IsTable(mem1, d) && mem2 == SetEntry(mem1, d, i, Present(t, TABLE_FLAGS))
    ensures Tabs(mem2, d) == Tabs(mem0, d) + {i} && |Tabs(mem2, d)| == |Tabs(mem0, d)| + 1
  {
    forall j: nat | j < NPT ensures Entry(mem2, d, j).Present? == (j == i || Entry(mem0, d, j).Present?) {
      assert Entry(mem1, d, j) == Entry(mem0, d, j);
    }
    assert Tabs(mem2, d) == Tabs(mem0, d) + {i};
  }

  lemma SameTabs(mem1: seq<Frame>, mem2: seq<Frame>, d: nat, t: nat, i: nat, p: Pte)
    requires IsTable(mem1, t) && i < NPT && t != d && mem2 == SetEntry(mem1, t, i, p)
    ensures Tabs(mem2, d) == Tabs(mem1, d)
  {
  }

  /** n frames have been taken off the free list for page tables, for the places that `done` pages from `first` on
      need and that had none. */
  ghost predicate Paid(free0: nat, tabs0: set<nat>, free1: nat, tabs1: set<nat>, first: nat, done: nat) {
    tabs1 == tabs0 + Touched(first, done) && free1 + |tabs1| == free0 + |tabs0|
  }

  lemma PaidNone(free: nat, tabs: set<nat>, first: nat)
    ensures Paid(free, tabs, free, tabs, first, 0)
  {
  }

  lemma PaidMore(free0: nat, tabs0: set<nat>, free1: nat, tabs1: set<nat>, free2: nat, tabs2: set<nat>, first: nat,
                 done: nat)
    requires Paid(free0, tabs0, free1, tabs1, first, done)
    requires tabs2 == tabs1 + {(first + done) / NPT} && free2 + |tabs2| == free1 + |tabs1|
    ensures Paid(free0, tabs0, free2, tabs2, first, done + 1)
  {
  }

  /** All tables are there: there were enough frames. */
  lemma PaidAll(free0: nat, tabs0: set<nat>, free1: nat, tabs1: set<nat>, first: nat, n: nat)
    requires Paid(free0, tabs0, free1, tabs1, first, n)
    ensures Enough(free0, tabs0, first, n)
  {
  }

  /** None is left and a table is missing: there were not. */
  lemma PaidOut(free0: nat, tabs0: set<nat>, tabs1: set<nat>, first: nat, done: nat, n: nat)
    requires Paid(free0, tabs0, 0, tabs1, first, done) && done < n && (first + done) / NPT !in tabs1
    ensures !Enough(free0, tabs0, first, n)
  {
    Missing(tabs0, first, done, n);
  }

  lemma TouchedMore(first: nat, n: nat)
    ensures Touched(first, n + 1) == Touched(first, n) + {(first + n) / NPT}
  {
  }

  lemma {:induction false} TouchedLess(first: nat, m: nat, n: nat)
    requires m <= n
    ensures Touched(first, m) <= Touched(first, n)
    decreases n - m
  {
    if m < n {
      TouchedLess(first, m, n - 1);
    }
  }

  lemma UnionSize(a: set<nat>, b: set<nat>)
    ensures |a + b| == |a| + |b - a|
  {
  }

  lemma Smaller(a: set<nat>, b: set<nat>)
    requires a <= b
    ensures |a| <= |b|
  {
    if a != b {
      assert b == a + (b - a);
    }
  }

  /** The next page's table is missing. */
  lemma Missing(tabs: set<nat>, first: nat, done: nat, n: nat)
    requires done < n && (first + done) / NPT !in tabs + Touched(first, done)
    ensures |tabs + Touched(first, done)| < |tabs| + |Touched(first, n) - tabs|
  {
    TouchedMore(first, done);
    TouchedLess(first, done + 1, n);
    UnionSize(tabs, Touched(first, done));
    var a, b, x := Touched(first, done) - tabs, Touched(first, n) - tabs, (first + done) / NPT;
    assert a + {x} <= b && x !in a;
    Smaller(a + {x}, b);
  }

  /** The frames that pages lo up to hi take, with the page tables they lack. */
  ghost function Needed(tabs: set<nat>, lo: nat, hi: nat): nat {
    if hi <= lo then 0 else hi - lo + |Touched(lo, hi - lo) - tabs|
  }

  /** Pages lo up to v have taken their frames off the free list, and the page tables they lacked. */
  ghost predicate Spent(free0: nat, tabs0: set<nat>, free1: nat, tabs1: set<nat>, lo: nat, v: nat) {
    lo <= v && tabs1 == tabs0 + Touched(lo, v - lo) && free1 + |tabs1| + (v - lo) == free0 + |tabs0|
  }

  lemma SpentNone(free: nat, tabs: set<nat>, lo: nat)
    ensures Spent(free, tabs, free, tabs, lo, lo)
  {
  }

  lemma SpentMore(free0: nat, tabs0: set<nat>, free1: nat, tabs1: set<nat>, free2: nat, tabs2: set<nat>, lo: nat,
                  v: nat)
    requires Spent(free0, tabs0, free1, tabs1, lo, v)
    requires tabs2 == tabs1 + {v / NPT} && free2 + |tabs2| + 1 == free1 + |tabs1|
    ensures Spent(free0, tabs0, free2, tabs2, lo, v + 1)
  {
  }

  lemma SpentAll(free0: nat, tabs0: set<nat>, free1: nat, tabs1: set<nat>, lo: nat, hi: nat)
    requires Spent(free0, tabs0, free1, tabs1, lo, Max(lo, hi))
    ensures free0 >= Needed(tabs0, lo, hi)
  {
  }

  lemma SpentOut(free0: nat, tabs0: set<nat>, free1: nat, tabs1: set<nat>, lo: nat, v: nat, hi: nat)
    requires Spent(free0, tabs0, free1, tabs1, lo, v) && v < hi && (free1 == 0 || (free1 == 1 && v / NPT !in tabs1))
    ensures free0 < Needed(tabs0, lo, hi)
  {
    hide Touched;
    var now, all := Touched(lo, v - lo), Touched(lo, hi - lo);
    UnionSize(tabs0, now);
    assert free0 == free1 + |now - tabs0| + (v - lo);
    if free1 == 1 {
      Missing(tabs0, lo, v - lo, hi - lo);
    } else {
      TouchedLess(lo, v - lo, hi - lo);
      Smaller(now - tabs0, all - tabs0);
    }
  }

  lemma OnePage(v: nat, free: nat, tabs: set<nat>)
    ensures v * PGSIZE / PGSIZE == v && (v * PGSIZE + PGSIZE - 1) / PGSIZE == v
    ensures Touched(v, 1) == {v / NPT} && (Enough(free, tabs, v, 1) <==> v / NPT in tabs || free > 0)
  {
  }

  lemma PaidOne(free2: nat, free1: nat, tabs1: set<nat>, tabs2: set<nat>, v: nat)
    requires Paid(free1, tabs1, free2, tabs2, v, 1)
    ensures tabs2 == tabs1 + {v / NPT} && free2 + |tabs2| == free1 + |tabs1|
  {
    OnePage(v, free1, tabs1);
  }

  lemma SameTabsLoose(mem1: seq<Frame>, mem2: seq<Frame>, own1: seq<Owner>, d: nat, f: nat)
    requires f < |own1| == |mem1| == |mem2| && mem2 == mem1[f := mem2[f]] && d < |own1| && own1[d].Dir? && own1[f].Free?
    ensures Tabs(mem2, d) == Tabs(mem1, d)
  {
  }

  lemma UndoneTables(own0: seq<Owner>, own3: seq<Owner>, mem0: seq<Frame>, mem3: seq<Frame>, d: nat, f: int)
    requires Undone(own0, own3, d, f) && DataKept(mem0, mem3, own0)
    requires (f >= 0 ==> f < |own3| == |mem3| && own3[f].Loose?)
    ensures f < 0 ==> TablesAdded(own0, own3, d)
    ensures f >= 0 && own0[f].Free? ==> TablesAdded(own0, own3[f := Free], d) && DataKept(mem0, mem3[f := Junk], own0)
  {
  }

  predicate Sized(kmap: seq<KRange>) {
    forall i: nat | i < |kmap| :: kmap[i].size > 0
  }

  lemma KSized(kmap: seq<KRange>)
    requires KmapOk(kmap)
    ensures Sized(kmap)
  {
  }

  /** The places of a directory that need a page table for the kernel's half. */
  ghost function KTabs(kmap: seq<KRange>): set<nat>
    requires Sized(kmap)
  {
    if |kmap| == 0 then {}
    else
      var r := kmap[|kmap| - 1];
      KTabs(kmap[..|kmap| - 1]) + Touched(First(r), Last(r) - First(r) + 1)
  }

  /** A new directory has taken one frame for itself and one for each page table. */
  ghost predicate KSpent(free0: nat, free1: nat, tabs1: set<nat>, kmap: seq<KRange>)
    requires Sized(kmap)
  {
    tabs1 == KTabs(kmap) && free1 + |tabs1| + 1 == free0
  }

  lemma KSpentNone(free0: nat, free1: nat, tabs1: set<nat>)
    requires tabs1 == {} && free1 + 1 == free0
    ensures Sized([]) && KSpent(free0, free1, tabs1, [])
  {
  }

  lemma KSpentAll(free0: nat, free1: nat, tabs1: set<nat>, kmap: seq<KRange>)
    requires Sized(kmap) && KSpent(free0, free1, tabs1, kmap)
    ensures free0 >= 1 + |KTabs(kmap)|
  {
  }

  lemma KSpentRow(free0: nat, free1: nat, tabs1: set<nat>, free2: nat, tabs2: set<nat>, kmap: seq<KRange>, k: nat)
    requires Sized(kmap) && k < |kmap| && Sized(kmap[..k]) && KSpent(free0, free1, tabs1, kmap[..k])
    requires Paid(free1, tabs1, free2, tabs2, First(kmap[k]), Last(kmap[k]) - First(kmap[k]) + 1)
    ensures Sized(kmap[..k + 1]) && KSpent(free0, free2, tabs2, kmap[..k + 1])
  {
    assert kmap[..k + 1][..k] == kmap[..k];
  }

  lemma {:induction false} KTabsLess(kmap: seq<KRange>, k: nat)
    requires Sized(kmap) && k <= |kmap|
    ensures Sized(kmap[..k]) && KTabs(kmap[..k]) <= KTabs(kmap)
    decreases |kmap| - k
  {
    if k < |kmap| {
      KTabsLess(kmap, k + 1);
      assert kmap[..k + 1][..k] == kmap[..k];
    } else {
      assert kmap[..k] == kmap;
    }
  }

  lemma KSpentOut(free0: nat, free1: nat, tabs1: set<nat>, kmap: seq<KRange>, k: nat)
    requires Sized(kmap) && k < |kmap| && Sized(kmap[..k]) && KSpent(free0, free1, tabs1, kmap[..k])
    requires !Enough(free1, tabs1, First(kmap[k]), Last(kmap[k]) - First(kmap[k]) + 1)
    ensures free0 < 1 + |KTabs(kmap)|
  {
    hide Touched, First, Last;
    var more := Touched(First(kmap[k]), Last(kmap[k]) - First(kmap[k]) + 1);
    KTabsLess(kmap, k + 1);
    assert kmap[..k + 1][..k] == kmap[..k];
    assert KTabs(kmap[..k + 1]) == tabs1 + more;
    UnionSize(tabs1, more);
    Smaller(tabs1 + more, KTabs(kmap));
  }

  /** ... and, beside the kernel's half, has v user pages with their tables. */
  ghost predicate CSpent(free0: nat, free1: nat, tabs1: set<nat>, kmap: seq<KRange>, v: nat)
    requires Sized(kmap)
  {
    tabs1 == KTabs(kmap) + Touched(0, v) && free1 + |tabs1| + 1 + v == free0
  }

  lemma CSpentNone(free0: nat, free1: nat, tabs1: set<nat>, kmap: seq<KRange>)
    requires Sized(kmap) && KSpent(free0, free1, tabs1, kmap)
    ensures CSpent(free0, free1, tabs1, kmap, 0)
  {
  }

  lemma CSpentMore(free0: nat, free1: nat, tabs1: set<nat>, free2: nat, tabs2: set<nat>, kmap: seq<KRange>, v: nat)
    requires Sized(kmap) && CSpent(free0, free1, tabs1, kmap, v)
    requires tabs2 == tabs1 + {v / NPT} && free2 + |tabs2| + 1 == free1 + |tabs1|
    ensures CSpent(free0, free2, tabs2, kmap, v + 1)
  {
  }

  lemma CSpentAll(free0: nat, free1: nat, tabs1: set<nat>, kmap: seq<KRange>, n: nat)
    requires Sized(kmap) && CSpent(free0, free1, tabs1, kmap, n)
    ensures free0 >= 1 + n + |KTabs(kmap) + Touched(0, n)|
  {
  }

  lemma CSpentOut(free0: nat, free1: nat, tabs1: set<nat>, kmap: seq<KRange>, v: nat, n: nat)
    requires Sized(kmap) && CSpent(free0, free1, tabs1, kmap, v) && v < n
    requires (free1 == 0 || (free1 == 1 && v / NPT !in tabs1))
    ensures free0 < 1 + n + |KTabs(kmap) + Touched(0, n)|
  {
    hide Touched, KTabs;
    var all := KTabs(kmap) + Touched(0, n);
    TouchedMore(0, v);
    TouchedLess(0, v + 1, n);
    if free1 == 1 {
      Smaller(tabs1 + {v / NPT}, all);
    } else {
      Smaller(tabs1, all);
    }
  }

  lemma NoTabs(mem: seq<Frame>, c: nat)
    requires c < |mem| && mem[c] == Table(Copies(Absent, NPT))
    ensures Tabs(mem, c) == {}
  {
  }

  /** Frame f was allocated and filled. */
  predicate Ready(mem: seq<Frame>, own: seq<Owner>, f: nat) {
    f < |own| && f < |mem| && own[f].Loose? && mem[f].Data?
  }

  /** Directory d maps none of the pages first .. last. */
  ghost predicate NoPages(mem: seq<Frame>, d: nat, first: nat, last: nat) {
    forall v: nat | first <= v <= last :: Lookup(mem, d, v).Absent?
  }

  /** So are the frames meant for the user pages among first .. last. */
  ghost predicate ReadyFrames(mem: seq<Frame>, own: seq<Owner>, first: nat, last: nat, pf: nat) {
    forall f: nat | pf <= f && f - pf <= last - first && first + (f - pf) < KERNPAGE :: Ready(mem, own, f)
  }

  lemma ReadyOne(mem: seq<Frame>, own: seq<Owner>, d: nat, v: nat, f: nat)
    requires f < |own| && f < |mem| && own[f].Loose? && mem[f].Data? && Lookup(mem, d, v).Absent?
    ensures ReadyFrames(mem, own, v, v, f) && NoPages(mem, d, v, v)
  {
  }

  /** The frame of a user page becomes that page's; frames of kernel pages stay what they are. */
  function Given(own: seq<Owner>, d: nat, v: nat, pf: nat): (r: seq<Owner>)
    ensures |r| == |own|
  {
    if v < KERNPAGE && pf < |own| then own[pf := User(d, v)] else own
  }

  function GivenAll(own: seq<Owner>, d: nat, first: nat, n: nat, pf: nat): (r: seq<Owner>)
    ensures |r| == |own|
    ensures forall f: nat | f < |own| ::
              r[f] == if pf <= f < pf + n && first + (f - pf) < KERNPAGE then User(d, first + (f - pf)) else own[f]
  {
    if n == 0 then own else Given(GivenAll(own, d, first, n - 1, pf), d, first + n - 1, pf + n - 1)
  }

  /** n pages of directory d from `first` on are mapped to the frames from pf on; all else is as before. */
  ghost predicate RangeMapped(mem1: seq<Frame>, mem2: seq<Frame>, own: seq<Owner>, d: nat, first: nat, n: nat, pf: nat,
                              flags: nat) {
    forall x: nat, y: nat | x < |own| && own[x].Dir? && y < NPAGES ::
      Lookup(mem2, x, y) == if x == d
        && first <= y < first + n then Present(pf + (y - first), flags) else Lookup(mem1, x, y)
  }

  lemma RangeNone(mem: seq<Frame>, own: seq<Owner>, d: nat, first: nat, pf: nat, flags: nat)
    ensures RangeMapped(mem, mem, own, d, first, 0, pf, flags)
    ensures TablesAdded(GivenAll(own, d, first, 0, pf), own, d) && DataKept(mem, mem, own)
  {
  }

  /** The frame for the next page is still ready. */
  lemma FrameNext(mem0: seq<Frame>, own0: seq<Owner>, mem1: seq<Frame>, own1: seq<Owner>, d: nat, first: nat,
                  last: nat, done: nat, pf: nat)
    requires ReadyFrames(mem0, own0, first, last, pf) && first + done <= last && |own0| == |mem0|
    requires TablesAdded(GivenAll(own0, d, first, done, pf), own1, d) && DataKept(mem0, mem1, own0)
    ensures first + done < KERNPAGE ==>
              pf + done < |own1| && pf + done < |mem1| && own1[pf + done].Loose? && mem1[pf + done].Data?
  {
    assert first + done < KERNPAGE ==> Ready(mem0, own0, pf + done);
  }

  lemma OwnStep(mem0: seq<Frame>, own0: seq<Owner>, mem1: seq<Frame>, own1: seq<Owner>, mem2: seq<Frame>,
                own2: seq<Owner>, d: nat, first: nat, done: nat, pf: nat)
    requires TablesAdded(GivenAll(own0, d, first, done, pf), own1, d) && DataKept(mem0, mem1, own0)
    requires TablesAdded(Given(own1, d, first + done, pf + done), own2, d) && DataKept(mem1, mem2, own1)
    requires first + done < KERNPAGE ==> pf + done < |own1| && own1[pf + done].Loose?
    ensures |own2| == |own1| && (forall f: nat | f < |own1| && own2[f].Dir? :: own1[f].Dir?)
    ensures TablesAdded(GivenAll(own0, d, first, done + 1, pf), own2, d) && DataKept(mem0, mem2, own0)
  {
  }

  lemma RangeNext(mem1: seq<Frame>, mem2: seq<Frame>, own: seq<Owner>, d: nat, first: nat, last: nat, n: nat, pf: nat,
                  flags: nat)
    requires RangeMapped(mem1, mem2, own, d, first, n, pf, flags) && d < |own| && own[d].Dir? && first + n < NPAGES
    requires NoPages(mem1, d, first, last) && first + n <= last
    ensures Lookup(mem2, d, first + n).Absent?
  {
  }

  lemma RangeStep(mem1: seq<Frame>, mem2: seq<Frame>, mem3: seq<Frame>, own2: seq<Owner>, own3: seq<Owner>, d: nat,
                  first: nat, n: nat, pf: nat, flags: nat)
    requires RangeMapped(mem1, mem2, own2, d, first, n, pf, flags)
    requires MapSet(mem2, mem3, own3, d, first + n, Present(pf + n, flags))
    requires |own2| == |own3| && forall f: nat | f < |own2| && own3[f].Dir? :: own2[f].Dir?
    ensures RangeMapped(mem1, mem3, own3, d, first, n + 1, pf, flags)
  {
    hide Lookup;
  }

  lemma WalkedAbsent(mem1: seq<Frame>, mem2: seq<Frame>, own: seq<Owner>, d: nat, v: nat)
    requires SameMaps(mem1, mem2, own) && d < |own| && own[d].Dir? && v < NPAGES && Lookup(mem1, d, v).Absent?
    ensures Lookup(mem2, d, v).Absent?
  {
  }

  lemma TabIsTable(mem: seq<Frame>, own: seq<Owner>, t: nat)
    requires Inv(mem, own) && t < |own| && own[t].Tab?
    ensures IsTable(mem, t)
  {
  }

  lemma SameThenSet(mem1: seq<Frame>, mem2: seq<Frame>, mem3: seq<Frame>, own2: seq<Owner>, own3: seq<Owner>, d: nat,
                    v: nat, p: Pte)
    requires SameMaps(mem1, mem2, own2) && MapSet(mem2, mem3, own3, d, v, p)
    requires |own2| == |own3| && forall f: nat | f < |own2| && own3[f].Dir? :: own2[f].Dir?
    ensures MapSet(mem1, mem3, own3, d, v, p)
  {
    hide Lookup;
  }

  /** Frames are shared by nobody: two user pages that are the same frame are the same page of the same directory; no
      user page is a page table, a directory or on the free list; and the free list has exactly the free frames. */
  lemma FramesApart(mem: seq<Frame>, own: seq<Owner>, free: seq<nat>, d1: nat, v1: nat, d2: nat, v2: nat)
    requires Inv(mem, own) && FreeList(free, own) && v1 < KERNPAGE && v2 < KERNPAGE
    requires d1 < |own| && own[d1].Dir? && d2 < |own| && own[d2].Dir?
    requires Lookup(mem, d1, v1).Present? && Lookup(mem, d2, v2).Present?
    ensures Lookup(mem, d1, v1).frame == Lookup(mem, d2, v2).frame <==> d1 == d2 && v1 == v2
    ensures var f := Lookup(mem, d1, v1).frame; f !in free && f != d2 && f != Entry(mem, d2, v2 / NPT).frame
    ensures forall f: nat | f < |own| :: f in free <==> own[f].Free?
  {
  }

  lemma InvTables(mem: seq<Frame>, own: seq<Owner>, d: nat, i: nat)
    requires Inv(mem, own) && d < |own| && own[d].Dir? && i < NPT
    ensures |own| == |mem| && IsTable(mem, d) && Entry(mem, d, i) == mem[d].e[i]
    ensures mem[d].e[i].Present? ==>
              mem[d].e[i].frame < |own| && own[mem[d].e[i].frame] == Tab(d, i) && IsTable(mem, mem[d].e[i].frame)
  {
  }

  lemma SameMapsSelf(mem: seq<Frame>, own: seq<Owner>)
    ensures SameMaps(mem, mem, own)
  {
  }

  lemma SameMapsTwice(mem1: seq<Frame>, mem2: seq<Frame>, mem3: seq<Frame>, own: seq<Owner>)
    requires SameMaps(mem1, mem2, own) && SameMaps(mem2, mem3, own)
    ensures SameMaps(mem1, mem3, own)
  {
    hide Lookup;
  }

  /** The maps are those of the directories. */
  lemma SameMapsOwn(mem1: seq<Frame>, mem2: seq<Frame>, own1: seq<Owner>, own2: seq<Owner>)
    requires SameMaps(mem1, mem2, own1) && |own1| == |own2|
    requires forall f: nat | f < |own1| && own2[f].Dir? :: own1[f].Dir?
    ensures SameMaps(mem1, mem2, own2)
  {
    hide Lookup;
  }
}
