/** growproc of src/proc.c on the page tables: what sbrk's sizes mean for the memory of the process. */
module Growproc {
  import opened Paging
  import opened Vm
  import Sbrk

  /** No user page of directory d is mapped from size `top` on. */
  ghost predicate EndsAt(mem: seq<Frame>, d: nat, top: nat) {
    forall v: nat | Pages(top) <= v < KERNPAGE :: Lookup(mem, d, v).Absent?
  }

  lemma UserPage(mem: seq<Frame>, own: seq<Owner>, d: nat, v: nat)
    requires Inv(mem, own) && d < |own| && own[d].Dir? && v < NPAGES && ZeroPage(mem, own, d, v)
    ensures Allows(mem, d, v, PTE_U) && Allows(mem, d, v, PTE_W)
  {
    hide Inv, Lookup, Allows;
    AllowsExact(mem, own, d, v, PTE_U);
    AllowsExact(mem, own, d, v, PTE_W);
  }

  /** growproc, by way of allocuvm and deallocuvm: the size on record, and where the memory really ends, are those that
      Sbrk.GrowProc tells.  `room` says whether the free frames suffice for the new pages and their tables. */
  method Growproc(m: Machine, d: nat, sz: nat, n: int) returns (ok: bool, newsz: nat, ghost top: nat)
    requires m.Valid() && m.IsDir(d) && sz < KERNBASE && -Sbrk.SIGN <= n < Sbrk.SIGN && EndsAt(m.mem, d, sz)
    modifies m
    ensures m.Valid() && m.IsDir(d) && EndsAt(m.mem, d, top)
    ensures var room := |old(m.free)| >= Needed(Tabs(old(m.mem), d), Pages(sz), Pages(if n > 0 then sz + n else sz));
            Sbrk.Grown(ok, Sbrk.Brk(newsz, top)) == Sbrk.GrowProc(Sbrk.Brk(sz, sz), n, room)
    ensures forall v: nat | v < Pages(if top < sz then top else sz) :: Lookup(m.mem, d, v) == Lookup(old(m.mem), d, v)
    ensures forall v: nat | Pages(sz) <= v < Pages(top) ::
              ZeroPage(m.mem, m.own, d, v) && Allows(m.mem, d, v, PTE_U) && Allows(m.mem, d, v, PTE_W)
    ensures forall x: nat, v: nat | x < |m.own| && m.own[x].Dir? && x != d && v < NPAGES ::
              Lookup(m.mem, x, v) == Lookup(old(m.mem), x, v)
  {
    hide Inv, Lookup, Tabs, Needed, FreeList, Grants, Allows, DataKept, TablesAdded, Released;
    newsz, top := sz, sz;
    if n > 0 {
      ghost var mapped;
      newsz, mapped := m.Allocuvm(d, sz, (sz + n) % 0x1_0000_0000);
      if newsz == 0 {
        return false, sz, sz;
      }
      top := newsz;
      forall v: nat | Pages(sz) <= v < Pages(top)
        ensures Allows(m.mem, d, v, PTE_U) && Allows(m.mem, d, v, PTE_W)
      {
        UserPage(m.mem, m.own, d, v);
      }
    } else if n < 0 {
      newsz := m.Deallocuvm(d, sz, (sz + n) % 0x1_0000_0000);
      if newsz == 0 {
        return false, sz, 0;
      }
      top := newsz;
    }
    ok := true;
  }
}
