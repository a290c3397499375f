/** The pipe of src/pipe.c: a ring of 512 bytes between two 32-bit counters that only ever go up and wrap around. */
module Pipe {
  import opened Blocks
  import opened Seqs

  const PIPESIZE := 512

  /** The value a 32-bit counter shows for a true count of n. */
  function Wrap(n: nat): nat { n % WORD_LIMIT }

  /** The place of byte number n in the ring. */
  function Pos(n: nat): (p: nat)
    ensures p < PIPESIZE
  {
    n % PIPESIZE
  }

  lemma WrapNext(n: nat)
    ensures (Wrap(n) + 1) % WORD_LIMIT == Wrap(n + 1)
  {
  }

  /** The ring position of a counter that has wrapped around is that of the true count, because PIPESIZE divides
      the range of the counter. */
  lemma RingPosition(n: nat)
    ensures Wrap(n) % PIPESIZE == Pos(n)
  {
  }

  /** Bytes less than PIPESIZE apart have different places. */
  lemma Apart(k: nat, w: nat)
    requires k < w < k + PIPESIZE
    ensures Pos(k) != Pos(w)
  {
  }

  /** The comparisons of wrapped counters decide whether the pipe is empty or full. */
  lemma Compare(r: nat, w: nat)
    requires r <= w <= r + PIPESIZE
    ensures Wrap(r) == Wrap(w) <==> r == w
    ensures Wrap(w) == (Wrap(r) + PIPESIZE) % WORD_LIMIT <==> w == r + PIPESIZE
    ensures (Wrap(w) - Wrap(r)) % WORD_LIMIT == w - r
  {
  }

  datatype Status = Blocked | Done(r: int)

  class Ring {
    const data: array<Byte>
    var nread: nat
    var nwrite: nat
    var readopen: bool
    var writeopen: bool
    ghost var accepted: seq<Byte>      // all bytes writers have put in
    ghost var delivered: seq<Byte>     // all bytes readers have got

    /** Bytes delivered followed by bytes buffered are the bytes accepted, in order. */
    ghost predicate Valid()
      reads this, data
    {
      && data.Length == PIPESIZE
      && nread == Wrap(|delivered|) && nwrite == Wrap(|accepted|)
      && |accepted| <= |delivered| + PIPESIZE
      && delivered <= accepted
      && forall k: nat | |delivered| <= k < |accepted| :: data[Pos(k)] == accepted[k]
    }

    /** The bytes in the ring, from the next to be read on. */
    ghost function Buffered(): seq<Byte>
      requires Valid()
      reads this, data
    {
      accepted[|delivered|..]
    }

    constructor ()
      ensures Valid() && accepted == delivered == [] && readopen && writeopen && fresh(data)
    {
      data := new Byte[PIPESIZE];
      nread, nwrite := 0, 0;
      readopen, writeopen := true, true;
      accepted, delivered := [], [];
    }

    method Put(b: Byte)
      requires Valid() && |Buffered()| < PIPESIZE
      modifies this`nwrite, this`accepted, data
      ensures Valid() && accepted == old(accepted) + [b]
    {
      hide Wrap, Pos;
      RingPosition(|accepted|);
      WrapNext(|accepted|);
      forall k: nat | |delivered| <= k < |accepted| ensures Pos(k) != Pos(|accepted|) {
        Apart(k, |accepted|);
      }
      data[nwrite % PIPESIZE] := b;
      nwrite := (nwrite + 1) % WORD_LIMIT;
      accepted := accepted + [b];
    }

    method Get() returns (b: Byte)
      requires Valid() && |Buffered()| > 0
      modifies this`nread, this`delivered
      ensures Valid() && delivered == old(delivered) + [b] && b == old(Buffered())[0]
    {
      hide Wrap, Pos;
      RingPosition(|delivered|);
      WrapNext(|delivered|);
      b := data[nread % PIPESIZE];
      nread := (nread + 1) % WORD_LIMIT;
      delivered := delivered + [b];
    }

    /** pipewrite from byte i of src on, until it sleeps or returns, all under the pipe's lock. */
    method Write(src: seq<Byte>, i: nat, killed: bool) returns (st: Status, j: nat)
      requires Valid() && i <= |src|
      modifies this`nwrite, this`accepted, data
      ensures Valid() && i <= j <= |src| && accepted == old(accepted) + src[i..j]
      ensures j == |src| <==> st == Done(|src|)
      ensures j < |src| ==> |Buffered()| == PIPESIZE && st == if !readopen || killed then Done(-1) else Blocked
    {
      hide Wrap, Pos;
      j := i;
      while j < |src|
        invariant Valid() && i <= j <= |src| && accepted == old(accepted) + src[i..j]
      {
        Compare(|delivered|, |accepted|);
        if nwrite == (nread + PIPESIZE) % WORD_LIMIT {
          st := if !readopen || killed then Done(-1) else Blocked;
          return;
        }
        Put(src[j]);
        j := j + 1;
      }
      st := Done(|src|);
    }

    /** piperead of up to n bytes, until it sleeps or returns, all under the pipe's lock. */
    method Read(n: nat, killed: bool) returns (st: Status, dst: seq<Byte>)
      requires Valid()
      modifies this`nread, this`delivered
      ensures Valid() && delivered == old(delivered) + dst
      ensures st == if old(|Buffered()|) == 0 && writeopen then if killed then Done(-1) else Blocked
                    else Done(if n < old(|Buffered()|) then n else old(|Buffered()|))
      ensures st.Done? && st.r >= 0 ==> dst == old(Buffered())[..st.r]
      ensures !(st.Done? && st.r >= 0) ==> dst == []
    {
      hide Wrap, Pos;
      Compare(|delivered|, |accepted|);
      dst := [];
      if nread == nwrite && writeopen {
        st := if killed then Done(-1) else Blocked;
        return;
      }
      var i := 0;
      while i < n
        invariant i <= n && i == |dst| <= |old(Buffered())| && Valid()
        invariant delivered == old(delivered) + dst && dst == old(Buffered())[..i]
      {
        Compare(|delivered|, |accepted|);
        if nread == nwrite {
          break;
        }
        var b := Get();
        dst := dst + [b];
        i := i + 1;
      }
      st := Done(i);
    }

    method Close(writable: bool)
      requires Valid()
      modifies this`readopen, this`writeopen
      ensures Valid()
      ensures writeopen == (old(writeopen) && !writable) && readopen == (old(readopen) && writable)
    {
      if writable {
        writeopen := false;
      } else {
        readopen := false;
      }
    }
  }

  // ---- any interleaving of readers and writers ------------------------------------------------------

  /** A call in progress or finished: how far a pipewrite has come, or what a piperead has returned. */
  datatype Call = Writer(src: seq<Byte>, i: nat, st: Status) | Reader(n: nat, got: seq<Byte>, st: Status)

  /** One turn: a call runs until it sleeps or returns, or an end of the pipe is closed. */
  datatype Turn = Resume(k: nat, killed: bool) | Shut(writable: bool)

  /** The bytes of s that carry tag k, in order. */
  ghost function Tagged(s: seq<Byte>, tags: seq<nat>, k: nat): seq<Byte>
    requires |s| == |tags|
  {
    if |s| == 0 then []
    else Tagged(s[..|s| - 1], tags[..|s| - 1], k) + if tags[|s| - 1] == k then [s[|s| - 1]] else []
  }

  lemma {:induction false} TaggedMore(s: seq<Byte>, tags: seq<nat>, t: seq<Byte>, k: nat, j: nat)
    requires |s| == |tags|
    ensures Tagged(s + t, tags + Copies(k, |t|), j) == Tagged(s, tags, j) + if j == k then t else []
  {
    if |t| == 0 {
      assert s + t == s && tags + Copies(k, 0) == tags;
    } else {
      var u := t[..|t| - 1];
      TaggedMore(s, tags, u, k, j);
      assert (s + t)[..|s + t| - 1] == s + u;
      assert (tags + Copies(k, |t|))[..|s + t| - 1] == tags + Copies(k, |u|);
      assert t == u + [t[|t| - 1]];
    }
  }

  /** Which call put in each accepted byte, and which got each delivered byte. */
  datatype Log = Log(from: seq<nat>, to: seq<nat>)

  /** Each writer has put in exactly the first i bytes of its source, in order, and each reader has exactly the
      bytes it returned, in order. */
  ghost predicate Accounts(accepted: seq<Byte>, delivered: seq<Byte>, log: Log, calls: seq<Call>) {
    && |log.from| == |accepted| && |log.to| == |delivered|
    && forall k: nat | k < |calls| ::
         match calls[k]
         case Writer(src, i, st) =>
           && i <= |src| && Tagged(accepted, log.from, k) == src[..i] && Tagged(delivered, log.to, k) == []
           && (st.Done? ==> st.r == if i == |src| then |src| else -1)
         case Reader(n, got, st) =>
           && |got| <= n && Tagged(delivered, log.to, k) == got && Tagged(accepted, log.from, k) == []
           && (if st.Done? && st.r != -1 then st.r == |got| else got == [])
  }

  lemma WriterMoved(acc: seq<Byte>, del: seq<Byte>, log: Log, calls: seq<Call>, k: nat, j: nat, st: Status)
    requires Accounts(acc, del, log, calls) && k < |calls| && calls[k].Writer? && calls[k].i <= j <= |calls[k].src|
    requires st.Done? ==> st.r == if j == |calls[k].src| then |calls[k].src| else -1
    ensures var c := calls[k];
            Accounts(acc + c.src[c.i..j], del, Log(log.from + Copies(k, j - c.i), log.to),
                     calls[k := Writer(c.src, j, st)])
  {
    hide Tagged, Copies;
    var c := calls[k];
    var part := c.src[c.i..j];
    assert c.src[..c.i] + part == c.src[..j];
    forall x: nat | x < |calls|
      ensures Tagged(acc + part, log.from + Copies(k, |part|), x) ==
                if x == k then c.src[..j] else Tagged(acc, log.from, x)
    {
      TaggedMore(acc, log.from, part, k, x);
      assert Tagged(acc, log.from, x) + [] == Tagged(acc, log.from, x);
    }
  }

  lemma ReaderMoved(acc: seq<Byte>, del: seq<Byte>, log: Log, calls: seq<Call>, k: nat, dst: seq<Byte>, st: Status)
    requires Accounts(acc, del, log, calls) && k < |calls| && calls[k].Reader? && calls[k].st.Blocked?
    requires |dst| <= calls[k].n
    requires if st.Done? && st.r != -1 then st.r == |dst| else dst == []
    ensures Accounts(acc, del + dst, Log(log.from, log.to + Copies(k, |dst|)), calls[k := Reader(calls[k].n, dst, st)])
  {
    hide Tagged, Copies;
    forall x: nat | x < |calls|
      ensures Tagged(del + dst, log.to + Copies(k, |dst|), x) == if x == k then dst else Tagged(del, log.to, x)
    {
      TaggedMore(del, log.to, dst, k, x);
      assert Tagged(del, log.to, x) + [] == Tagged(del, log.to, x);
    }
  }

  /** One turn of call k. */
  method Advance(p: Ring, calls: seq<Call>, k: nat, killed: bool, ghost log: Log) returns (c: Call, ghost log2: Log)
    requires p.Valid() && k < |calls| && calls[k].st.Blocked? && Accounts(p.accepted, p.delivered, log, calls)
    modifies p`nread, p`nwrite, p`accepted, p`delivered, p.data
    ensures p.Valid() && Accounts(p.accepted, p.delivered, log2, calls[k := c])
    ensures c.Writer? == calls[k].Writer?
    ensures c.Writer? ==> c.src == calls[k].src
    ensures c.Reader? ==> c.n == calls[k].n
  {
    hide Tagged, Copies, Wrap, Pos;
    ghost var acc, del := p.accepted, p.delivered;
    match calls[k] {
      case Writer(src, i, _) =>
        var st, j := p.Write(src, i, killed);
        c := Writer(src, j, st);
        log2 := Log(log.from + Copies(k, j - i), log.to);
        WriterMoved(acc, del, log, calls, k, j, st);
      case Reader(n, _, _) =>
        var st, dst := p.Read(n, killed);
        c := Reader(n, dst, st);
        log2 := Log(log.from, log.to + Copies(k, |dst|));
        ReaderMoved(acc, del, log, calls, k, dst, st);
    }
  }

  /** Readers and writers that start on an empty pipe and take turns in any order: whatever they do, the bytes
      delivered are a prefix of the bytes accepted, the rest is in the ring, and each call is accounted for. */
  method Interleave(p: Ring, start: seq<Call>, turns: seq<Turn>) returns (calls: seq<Call>, ghost log: Log)
    requires p.Valid() && p.accepted == p.delivered == []
    requires forall k: nat | k < |start| ::
               start[k].st.Blocked? && (start[k].Writer? ==> start[k].i == 0)
                 && (start[k].Reader? ==> start[k].got == [])
    modifies p, p.data
    ensures p.Valid() && p.accepted == p.delivered + p.Buffered() && Accounts(p.accepted, p.delivered, log, calls)
    ensures 0 <= (p.nwrite - p.nread) % WORD_LIMIT == |p.Buffered()| <= PIPESIZE
    ensures |calls| == |start| && forall k: nat | k < |calls| ::
              && calls[k].Writer? == start[k].Writer?
              && (calls[k].Writer? ==> calls[k].src == start[k].src)
              && (calls[k].Reader? ==> calls[k].n == start[k].n)
  {
    hide Wrap, Pos;
    calls := start;
    log := Log([], []);
    var t := 0;
    while t < |turns|
      invariant p.Valid() && Accounts(p.accepted, p.delivered, log, calls)
      invariant |calls| == |start| && forall k: nat | k < |calls| ::
                  && calls[k].Writer? == start[k].Writer?
                  && (calls[k].Writer? ==> calls[k].src == start[k].src)
                  && (calls[k].Reader? ==> calls[k].n == start[k].n)
    {
      match turns[t] {
        case Resume(k, killed) =>
          if k < |calls| && calls[k].st.Blocked? {
            var c;
            c, log := Advance(p, calls, k, killed, log);
            calls := calls[k := c];
          }
        case Shut(writable) =>
          p.Close(writable);
      }
      t := t + 1;
    }
    Compare(|p.delivered|, |p.accepted|);
  }
}
