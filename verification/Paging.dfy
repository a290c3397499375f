/** Page tables and the frames they are made of (src/vm.c, src/kalloc.c).  Physical memory is a sequence of frames; a
    frame holds a page directory or page table, or data.  Every frame has one owner. */
module Paging {
  import opened Blocks
  import opened Seqs

  const NPT := 1024               // entries of a page directory, and of a page table
  const KERNPAGE := 0x8_0000      // KERNBASE / PGSIZE: the first page of the kernel's half
  const NPAGES := 0x10_0000       // pages of the address space

  const PTE_W := 2
  const PTE_U := 4

  datatype Pte = Absent | Present(frame: nat, flags: nat)

  datatype Frame = Junk | Table(e: seq<Pte>) | Data(bytes: seq<Byte>)

  /** Whose a frame is: on the free list; a page directory; page table i of directory d; user page v of directory d;
      or taken for something else. */
  datatype Owner = Free | Dir | Tab(d: nat, i: nat) | User(d: nat, v: nat) | Loose

  function Entry(mem: seq<Frame>, f: nat, i: nat): Pte {
    if f < |mem| && mem[f].Table? && i < |mem[f].e| then mem[f].e[i] else Absent
  }

  /** The two-level lookup of page v in directory d. */
  function Lookup(mem: seq<Frame>, d: nat, v: nat): Pte {
    var pde := Entry(mem, d, v / NPT);
    if pde.Absent? then Absent else Entry(mem, pde.frame, v % NPT)
  }

  predicate Grants(flags: nat, bit: nat)
    requires bit > 0
  {
    flags / bit % 2 == 1
  }

  /** What the hardware lets an access to page v do: a permission counts only if both levels grant it. */
  predicate Allows(mem: seq<Frame>, d: nat, v: nat, bit: nat)
    requires bit > 0
  {
    var pde := Entry(mem, d, v / NPT);
    && pde.Present? && Grants(pde.flags, bit)
    && var pte := Entry(mem, pde.frame, v % NPT);
       pte.Present? && Grants(pte.flags, bit)
  }

  predicate IsTable(mem: seq<Frame>, f: nat) {
    f < |mem| && mem[f].Table? && |mem[f].e| == NPT
  }

  /** Tables: a present directory entry names the table that belongs there, and restricts nothing; and every table is
      named by its entry. */
  ghost predicate Tables(mem: seq<Frame>, own: seq<Owner>) {
    && |own| == |mem|
    && (forall f: nat | f < |own| && (own[f].Dir? || own[f].Tab?) :: IsTable(mem, f))
    && (forall d: nat, i: nat | d < |own| && own[d].Dir? && i < NPT && Entry(mem, d, i).Present? ::
          && Entry(mem, d, i).frame < |own| && own[Entry(mem, d, i).frame] == Tab(d, i)
          && Grants(Entry(mem, d, i).flags, PTE_W) && Grants(Entry(mem, d, i).flags, PTE_U))
    && (forall t: nat | t < |own| && own[t].Tab? ::
          && own[t].d < |own| && own[own[t].d].Dir? && own[t].i < NPT
          && Entry(mem, own[t].d, own[t].i).Present? && Entry(mem, own[t].d, own[t].i).frame == t)
  }

  /** User pages: a present entry below the kernel's half names the frame that belongs there, and vice versa. */
  ghost predicate Users(mem: seq<Frame>, own: seq<Owner>) {
    && |own| == |mem|
    && (forall d: nat, v: nat | d < |own| && own[d].Dir? && v < KERNPAGE && Lookup(mem, d, v).Present? ::
          Lookup(mem, d, v).frame < |own| && own[Lookup(mem, d, v).frame] == User(d, v))
    && (forall f: nat | f < |own| && own[f].User? ::
          && own[f].d < |own| && own[own[f].d].Dir? && own[f].v < KERNPAGE && mem[f].Data?
          && Lookup(mem, own[f].d, own[f].v).Present? && Lookup(mem, own[f].d, own[f].v).frame == f)
  }

  ghost predicate Inv(mem: seq<Frame>, own: seq<Owner>) {
    Tables(mem, own) && Users(mem, own)
  }

  /** The permissions of a page are those of its page-table entry. */
  lemma AllowsExact(mem: seq<Frame>, own: seq<Owner>, d: nat, v: nat, bit: nat)
    requires Inv(mem, own) && d < |own| && own[d].Dir? && v < NPAGES && (bit == PTE_W || bit == PTE_U)
    ensures Allows(mem, d, v, bit) <==> Lookup(mem, d, v).Present? && Grants(Lookup(mem, d, v).flags, bit)
  {
    hide Grants, Entry;
  }

  // ---- an entry of a table ------------------------------------------------------------------------

  function SetEntry(mem: seq<Frame>, t: nat, i: nat, p: Pte): (r: seq<Frame>)
    requires IsTable(mem, t) && i < NPT
    ensures |r| == |mem| && IsTable(r, t)
    ensures forall f: nat | f != t && f < |mem| :: r[f] == mem[f]
    ensures forall f: nat, j: nat :: Entry(r, f, j) == if f == t && j == i then p else Entry(mem, f, j)
  {
    mem[t := Table(mem[t].e[i := p])]
  }

  lemma SetTables(mem: seq<Frame>, own: seq<Owner>, t: nat, i: nat, p: Pte)
    requires Tables(mem, own) && t < |own| && own[t].Tab? && i < NPT
    ensures Tables(SetEntry(mem, t, i, p), own)
  {
    hide SetEntry, Entry;
  }

  // ---- the flat maps ------------------------------------------------------------------------------

  /** Every directory maps every page as before. */
  ghost predicate SameMaps(mem1: seq<Frame>, mem2: seq<Frame>, own: seq<Owner>) {
    forall d: nat, v: nat | d < |own| && own[d].Dir? && v < NPAGES :: Lookup(mem2, d, v) == Lookup(mem1, d, v)
  }

  /** Directory d maps page v to p, and everything else is mapped as before. */
  ghost predicate MapSet(mem1: seq<Frame>, mem2: seq<Frame>, own: seq<Owner>, d: nat, v: nat, p: Pte) {
    forall x: nat, y: nat | x < |own| && own[x].Dir? && y < NPAGES ::
      Lookup(mem2, x, y) == if x == d && y == v then p else Lookup(mem1, x, y)
  }

  /** A frame that is free or taken for something else may hold anything. */
  lemma LooseMem(mem: seq<Frame>, own: seq<Owner>, f: nat, x: Frame)
    requires Inv(mem, own) && f < |own| && (own[f].Free? || own[f].Loose?)
    ensures Inv(mem[f := x], own) && SameMaps(mem, mem[f := x], own)
  {
    var mem2 := mem[f := x];
    forall g: nat, j: nat | g < |own| && g != f ensures Entry(mem2, g, j) == Entry(mem, g, j) {}
    forall d: nat, v: nat | d < |own| && own[d].Dir? && v < NPAGES ensures Lookup(mem2, d, v) == Lookup(mem, d, v) {
      hide Entry;
    }
    hide Entry, Lookup;
  }

  /** kalloc and kfree. */
  lemma LooseOwner(mem: seq<Frame>, own: seq<Owner>, f: nat, o: Owner)
    requires Inv(mem, own) && f < |own| && (own[f].Free? || own[f].Loose?) && (o.Free? || o.Loose?)
    ensures Inv(mem, own[f := o])
  {
    hide Entry, Lookup;
  }

  /** walkpgdir puts a new, empty page table t into entry i of directory d. */
  lemma AddTable(mem: seq<Frame>, own: seq<Owner>, d: nat, i: nat, t: nat, flags: nat)
    requires Inv(mem, own) && d < |own| && own[d].Dir? && i < NPT && Entry(mem, d, i).Absent?
    requires t < |own| && own[t].Loose? && mem[t] == Table(Copies(Absent, NPT))
    requires Grants(flags, PTE_W) && Grants(flags, PTE_U)
    ensures var mem2, own2 := SetEntry(mem, d, i, Present(t, flags)), own[t := Tab(d, i)];
            Inv(mem2, own2) && SameMaps(mem, mem2, own2)
  {
    var mem2, own2 := SetEntry(mem, d, i, Present(t, flags)), own[t := Tab(d, i)];
    assert forall j: nat :: Entry(mem, t, j) == Absent;
    forall x: nat, v: nat | x < |own| && own[x].Dir? && v < NPAGES ensures Lookup(mem2, x, v) == Lookup(mem, x, v) {
      hide SetEntry, Entry;
    }
    assert Tables(mem2, own2) by {
      hide SetEntry, Entry, Lookup;
    }
    hide SetEntry, Entry, Lookup;
  }

  /** A page of the user half is mapped to a frame of its own. */
  lemma MapUser(mem: seq<Frame>, own: seq<Owner>, d: nat, v: nat, t: nat, f: nat, flags: nat)
    requires Inv(mem, own) && d < |own| && own[d].Dir? && v < KERNPAGE && Lookup(mem, d, v).Absent?
    requires t < |own| && own[t] == Tab(d, v / NPT) && f < |own| && own[f].Loose? && mem[f].Data?
    ensures var mem2, own2 := SetEntry(mem, t, v % NPT, Present(f, flags)), own[f := User(d, v)];
            Inv(mem2, own2) && MapSet(mem, mem2, own2, d, v, Present(f, flags))
  {
    var p := Present(f, flags);
    var mem2, own2 := SetEntry(mem, t, v % NPT, p), own[f := User(d, v)];
    SetMaps(mem, own, t, d, v, p);
    SetTables(mem, own, t, v % NPT, p);
    hide SetEntry, Entry, Lookup;
    assert Tables(mem2, own2);
  }

  /** An entry of a page table is one page of one directory's map. */
  lemma SetMaps(mem: seq<Frame>, own: seq<Owner>, t: nat, d: nat, v: nat, p: Pte)
    requires Tables(mem, own) && t < |own| && own[t] == Tab(d, v / NPT) && v < NPAGES
    ensures MapSet(mem, SetEntry(mem, t, v % NPT, p), own, d, v, p)
  {
  }

  /** A page of the kernel's half is mapped; no frame changes hands. */
  lemma MapKernel(mem: seq<Frame>, own: seq<Owner>, d: nat, v: nat, t: nat, p: Pte)
    requires Inv(mem, own) && d < |own| && own[d].Dir? && KERNPAGE <= v < NPAGES && t < |own|
    requires own[t] == Tab(d, v / NPT)
    ensures var mem2 := SetEntry(mem, t, v % NPT, p); Inv(mem2, own) && MapSet(mem, mem2, own, d, v, p)
  {
    SetMaps(mem, own, t, d, v, p);
    SetTables(mem, own, t, v % NPT, p);
    hide SetEntry, Entry, Lookup;
  }

  /** A user page is unmapped and its frame freed. */
  lemma Unmap(mem: seq<Frame>, own: seq<Owner>, d: nat, v: nat, t: nat)
    requires Inv(mem, own) && d < |own| && own[d].Dir? && v < KERNPAGE && Lookup(mem, d, v).Present?
    requires t < |own| && own[t] == Tab(d, v / NPT)
    ensures var f := Lookup(mem, d, v).frame;
            && f < |own| && own[f] == User(d, v) && f != t
            && var mem2, own2 := SetEntry(mem[f := Junk], t, v % NPT, Absent), own[f := Free];
               Inv(mem2, own2) && MapSet(mem, mem2, own2, d, v, Absent)
  {
    var f := Lookup(mem, d, v).frame;
    var own1 := own[f := Loose];
    var mem1 := mem[f := Junk];
    DetachedTables(mem, own, f);
    SetMaps(mem1, own1, t, d, v, Absent);
    SetTables(mem1, own1, t, v % NPT, Absent);
    hide SetEntry, Entry, Lookup;
    assert Tables(SetEntry(mem1, t, v % NPT, Absent), own[f := Free]);
  }

  /** A data frame has no part in the tables. */
  lemma DetachedTables(mem: seq<Frame>, own: seq<Owner>, f: nat)
    requires Inv(mem, own) && f < |own| && own[f].User?
    ensures Tables(mem[f := Junk], own[f := Loose])
    ensures forall x: nat, y: nat {:trigger Lookup(mem[f := Junk], x, y)} | x < |own| && own[x].Dir? && y < NPAGES ::
              Lookup(mem[f := Junk], x, y) == Lookup(mem, x, y)
  {
    var mem1 := mem[f := Junk];
    forall g: nat, j: nat | g < |own| && g != f ensures Entry(mem1, g, j) == Entry(mem, g, j) {}
    forall x: nat, y: nat | x < |own| && own[x].Dir? && y < NPAGES ensures Lookup(mem1, x, y) == Lookup(mem, x, y) {
      hide Entry;
    }
    hide Entry, Lookup;
  }

  /** A new, empty directory. */
  lemma NewDir(mem: seq<Frame>, own: seq<Owner>, d: nat)
    requires Inv(mem, own) && d < |own| && own[d].Loose? && mem[d] == Table(Copies(Absent, NPT))
    ensures Inv(mem, own[d := Dir]) && forall v: nat :: Lookup(mem, d, v) == Absent
  {
    assert forall j: nat :: Entry(mem, d, j) == Absent;
    hide Entry;
  }

  // ---- the end of a directory -----------------------------------------------------------------------

  /** The frame is directory d itself, one of its page tables or one of its user pages. */
  predicate Belongs(own: seq<Owner>, f: nat, d: nat)
    requires f < |own|
  {
    (f == d && own[f].Dir?) || ((own[f].Tab? || own[f].User?) && own[f].d == d)
  }

  /** Directory d and its tables are given up, all at once; they have no user pages any more. */
  ghost predicate Retired(own1: seq<Owner>, own2: seq<Owner>, d: nat) {
    && |own1| == |own2|
    && forall f: nat | f < |own1| :: own2[f] == if Belongs(own1, f, d) then Loose else own1[f]
  }

  lemma Retire(mem: seq<Frame>, own: seq<Owner>, own2: seq<Owner>, d: nat)
    requires Inv(mem, own) && d < |own| && own[d].Dir? && Retired(own, own2, d)
    requires forall f: nat | f < |own| && own[f].User? :: own[f].d != d
    ensures Inv(mem, own2)
  {
    hide Entry, Lookup;
  }
}
