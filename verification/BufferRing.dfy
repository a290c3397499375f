/** The MRU list of src/bio.c: a doubly linked ring of buffers through prev and next, with a list head. */
module RingLinks {
  import opened Seqs

  /** j follows i in a ring of n places. */
  predicate Follows(i: nat, j: nat, n: nat) {
    i < n && j < n && (j == i + 1 || (j == 0 && i == n - 1))
  }

  /** The ring runs through the elements of r, all different, and back to r[0]. */
  ghost predicate Ring(next: seq<nat>, prev: seq<nat>, r: seq<nat>) {
    && |next| == |prev| && |r| > 0
    && (forall i: nat | i < |r| :: r[i] < |next|)
    && (forall i: nat, j: nat | i < |r| && j < |r| && i != j :: r[i] != r[j])
    && (forall i: nat, j: nat {:trigger r[i], r[j]} | Follows(i, j, |r|) :: next[r[i]] == r[j] && prev[r[j]] == r[i])
  }

  /** b, at place p, is taken out. */
  lemma Unlink(next: seq<nat>, prev: seq<nat>, r: seq<nat>, p: nat, b: nat, x: nat, y: nat)
    requires Ring(next, prev, r) && 0 < p < |r| && b == r[p] && x == prev[b] && y == next[b]
    ensures x < |next| && y < |prev| && Ring(next[x := y], prev[y := x], RemoveAt(r, p))
  {
    var r2 := RemoveAt(r, p);
    var q := if p + 1 < |r| then p + 1 else 0;
    assert Follows(p - 1, p, |r|) && Follows(p, q, |r|) && x == r[p - 1] && y == r[q];
    forall i: nat, j: nat | Follows(i, j, |r2|) ensures next[x := y][r2[i]] == r2[j] && prev[y := x][r2[j]] == r2[i] {
      var i0, j0 := if i < p then i else i + 1, if j < p then j else j + 1;
      assert r2[i] == r[i0] && r2[j] == r[j0];
    }
  }

  /** b, which is not in the ring, is put in after the head. */
  lemma PushFront(next: seq<nat>, prev: seq<nat>, r: seq<nat>, b: nat, y: nat)
    requires Ring(next, prev, r) && b < |next| && b !in r && y == next[r[0]]
    ensures y < |prev| && Ring(next[b := y][r[0] := b], prev[b := r[0]][y := b], InsertAt(r, 1, b))
  {
    var r2, h := InsertAt(r, 1, b), r[0];
    var q := if 1 < |r| then 1 else 0;
    assert Follows(0, q, |r|) && y == r[q];
    var next2, prev2 := next[b := y][h := b], prev[b := h][y := b];
    forall i: nat, j: nat | Follows(i, j, |r2|) ensures next2[r2[i]] == r2[j] && prev2[r2[j]] == r2[i] {
      if i >= 2 {
        assert r2[i] == r[i - 1] && (j >= 2 ==> r2[j] == r[j - 1]);
      }
    }
  }
}

module BufferRing {
  import opened Seqs
  import opened RingLinks
  import opened BufferCache

  predicate Matches(q: Buf, dev: nat, blockno: nat) {
    q.dev == dev && q.blockno == blockno
  }

  predicate Recyclable(q: Buf) {
    q.refcnt == 0 && !q.dirty
  }

  ghost predicate Inside(r: seq<nat>, b: nat) {
    exists i: nat :: 0 < i < |r| && r[i] == b
  }

  /** Every buffer below n is in the ring, and nothing else but the head. */
  ghost predicate Complete(r: seq<nat>, head: nat, n: nat) {
    && |r| > 0 && r[0] == head
    && (forall i: nat | 0 < i < |r| :: r[i] < n)
    && (forall b: nat | b < n :: Inside(r, b))
  }

  lemma MovedToFront(r: seq<nat>, head: nat, n: nat, p: nat)
    requires Complete(r, head, n) && 0 < p < |r|
    ensures Complete(InsertAt(RemoveAt(r, p), 1, r[p]), head, n)
  {
    var r2 := InsertAt(RemoveAt(r, p), 1, r[p]);
    forall b: nat | b < n ensures Inside(r2, b) {
      assert Inside(r, b);
      var i: nat :| 0 < i < |r| && r[i] == b;
      assert r2[if i == p then 1 else if i < p then i + 1 else i] == b;
    }
  }

  lemma Grown(r: seq<nat>, head: nat, n: nat)
    requires Complete(r, head, n)
    ensures Complete(InsertAt(r, 1, n), head, n + 1)
  {
    var r2 := InsertAt(r, 1, n);
    forall b: nat | b < n + 1 ensures Inside(r2, b) {
      if b == n {
        assert r2[1] == b;
      } else {
        assert Inside(r, b);
        var i: nat :| 0 < i < |r| && r[i] == b;
        assert r2[i + 1] == b;
      }
    }
  }

  class Bcache {
    const nbuf: nat                // also the place of the list head in next and prev
    var next: seq<nat>
    var prev: seq<nat>
    var bufs: seq<Buf>
    ghost var ring: seq<nat>       // the head, then the buffers, most recently used first

    ghost predicate Valid()
      reads this
    {
      && |bufs| == nbuf && |next| == nbuf + 1
      && Ring(next, prev, ring) && Complete(ring, nbuf, nbuf)
    }

    /** Puts b after the head. */
    method Insert(b: nat)
      requires |next| == nbuf + 1 && Ring(next, prev, ring) && ring[0] == nbuf && b < nbuf && b !in ring
      modifies this`next, this`prev, this`ring
      ensures |next| == nbuf + 1 && Ring(next, prev, ring) && ring == InsertAt(old(ring), 1, b)
    {
      PushFront(next, prev, ring, b, next[nbuf]);
      next := next[b := next[nbuf]];
      prev := prev[b := nbuf];
      prev := prev[next[nbuf] := b];
      next := next[nbuf := b];
      ring := InsertAt(ring, 1, b);
    }

    /** binit: the buffers are put in one after the other. */
    constructor (bufs: seq<Buf>)
      ensures Valid() && this.bufs == bufs && nbuf == |bufs|
      ensures forall i: nat | 0 < i < |ring| :: ring[i] == nbuf - i
    {
      nbuf := |bufs|;
      this.bufs := bufs;
      next, prev := Copies(|bufs|, |bufs| + 1), Copies(|bufs|, |bufs| + 1);
      ring := [|bufs|];
      new;
      var b := 0;
      while b < nbuf
        invariant b <= nbuf == |bufs| && this.bufs == bufs && |next| == nbuf + 1
        invariant Ring(next, prev, ring) && Complete(ring, nbuf, b) && |ring| == b + 1
        invariant forall i: nat | 0 < i < |ring| :: ring[i] == b - i
      {
        Grown(ring, nbuf, b);
        Insert(b);
        b := b + 1;
      }
    }

    /** The first loop of bget: the buffer that has the block, or -1. */
    method Find(dev: nat, blockno: nat) returns (b: int)
      requires Valid()
      ensures -1 <= b < nbuf
      ensures b >= 0 ==> Matches(bufs[b], dev, blockno)
      ensures b < 0 ==> forall i: nat | i < nbuf :: !Matches(bufs[i], dev, blockno)
    {
      b := next[nbuf];
      ghost var i: nat := 1;
      assert Follows(0, if 1 < |ring| then 1 else 0, |ring|);
      while b != nbuf
        invariant 0 < i <= |ring| && b == (if i < |ring| then ring[i] else nbuf)
        invariant forall j: nat | 0 < j < i :: !Matches(bufs[ring[j]], dev, blockno)
        decreases |ring| - i
      {
        if bufs[b].dev == dev && bufs[b].blockno == blockno {
          return;
        }
        assert Follows(i, if i + 1 < |ring| then i + 1 else 0, |ring|);
        b := next[b];
        i := i + 1;
      }
      forall x: nat | x < nbuf ensures !Matches(bufs[x], dev, blockno) {
        assert Inside(ring, x);
      }
      b := -1;
    }

    /** The second loop of bget: the least recently used buffer that is free, or -1. */
    method FindFree() returns (b: int, ghost p: nat)
      requires Valid()
      ensures -1 <= b < nbuf
      ensures b >= 0 ==>
                Recyclable(bufs[b]) && 0 < p < |ring| && ring[p] == b
                  && forall j: nat | p < j < |ring| :: !Recyclable(bufs[ring[j]])
      ensures b < 0 ==> forall i: nat | i < nbuf :: !Recyclable(bufs[i])
    {
      b := prev[nbuf];
      p := |ring| - 1;
      assert Follows(p, 0, |ring|);
      while b != nbuf
        invariant p < |ring| && b == ring[p]
        invariant forall j: nat | p < j < |ring| :: !Recyclable(bufs[ring[j]])
        decreases p
      {
        if bufs[b].refcnt == 0 && !bufs[b].dirty {
          return;
        }
        assert Follows(p - 1, p, |ring|);
        b := prev[b];
        p := p - 1;
      }
      forall x: nat | x < nbuf ensures !Recyclable(bufs[x]) {
        assert Inside(ring, x);
      }
      b := -1;
    }

    /** bget: a buffer that has the block; else the least recently used one that is free, for the block; -1 for the
        panic.  The result is a step of the cache for call k. */
    method Bget(dev: nat, blockno: nat, k: nat, ghost s: Sys) returns (b: int, ghost l: Label)
      requires Valid() && s.bufs == bufs && k < |s.calls| && s.calls[k] == Asking(dev, blockno)
      modifies this`bufs
      ensures Valid() && -1 <= b < nbuf
      ensures b < 0 ==>
                unchanged(this) && forall i: nat | i < nbuf :: !Matches(bufs[i], dev, blockno) && !Recyclable(bufs[i])
      ensures b < 0 <==> forall i: nat | i < nbuf :: var q := old(bufs)[i];
                           !(q.dev == dev && q.blockno == blockno) && (q.refcnt != 0 || q.dirty)
      ensures b >= 0 ==> (l == Hit(k, b) || l == Miss(k, b)) && Enabled(s, l) && bufs == Next(s, l).bufs
      ensures b >= 0 && l.Miss? ==>
                forall i: nat, j: nat | i < j < |ring| && ring[i] == b :: !Recyclable(old(bufs)[ring[j]])
    {
      l := Ask(dev, blockno);
      b := Find(dev, blockno);
      if b >= 0 {
        l := Hit(k, b);
        bufs := bufs[b := bufs[b].(refcnt := bufs[b].refcnt + 1, users := bufs[b].users + {k})];
        return;
      }
      ghost var p;
      b, p := FindFree();
      if b >= 0 {
        l := Miss(k, b);
        bufs := bufs[b := Buf(dev, blockno, false, false, 1, bufs[b].data, {k}, NoOne)];
      }
    }

    /** b is unlinked and put in after the head. */
    method ToFront(b: nat, ghost p: nat)
      requires Valid() && 0 < p < |ring| && ring[p] == b
      modifies this`next, this`prev, this`ring
      ensures Valid() && ring == InsertAt(RemoveAt(old(ring), p), 1, b)
    {
      MovedToFront(ring, nbuf, nbuf, p);
      Unlink(next, prev, ring, p, b, prev[b], next[b]);
      assert next[b] != b by {
        var q := if p + 1 < |ring| then p + 1 else 0;
        assert Follows(p, q, |ring|) && next[ring[p]] == ring[q];
      }
      ghost var r1 := RemoveAt(ring, p);
      assert b !in r1 && r1[0] == nbuf;
      hide Ring, Complete;
      prev := prev[next[b] := prev[b]];
      next := next[prev[b] := next[b]];
      ring := r1;
      Insert(b);
    }

    /** The end of brelse: the reference is dropped, and a buffer that nobody uses any more becomes the most recently
        used one. */
    method Drop(b: nat, k: nat, ghost s: Sys)
      requires Valid() && s.bufs == bufs && Enabled(s, Label.Drop(k)) && s.calls[k].b == b
      modifies this
      ensures Valid() && bufs == Next(s, Label.Drop(k)).bufs
      ensures bufs[b].refcnt > 0 ==> ring == old(ring)
      ensures bufs[b].refcnt == 0 ==>
                exists p: nat :: 0 < p < |old(ring)| && old(ring)[p] == b
                  && ring == InsertAt(RemoveAt(old(ring), p), 1, b)
    {
      bufs := bufs[b := bufs[b].(refcnt := bufs[b].refcnt - 1, users := bufs[b].users - {k})];
      if bufs[b].refcnt == 0 {
        assert Inside(ring, b);
        ghost var p: nat :| 0 < p < |ring| && ring[p] == b;
        ToFront(b, p);
      }
    }
  }
}
