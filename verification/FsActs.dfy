/** A write or read is a series of steps, round by round, that others can come between. */
module FsActs {
  import opened Blocks
  import opened FsModel
  import opened FileOps
  import opened FsRun

  /** What one round covers of n bytes at off. */
  function Span1(off: nat, n: nat): (m: nat)
    requires n > 0
    ensures 0 < m <= n && off % BSIZE + m <= BSIZE
  {
    if n < BSIZE - off % BSIZE then n else BSIZE - off % BSIZE
  }

  function Rounds(i: nat, off: nat, src: seq<Byte>): seq<Act>
    decreases |src|
  {
    if |src| == 0 then []
    else var m := Span1(off, |src|); [Round(i, off, src[..m])] + Rounds(i, off + m, src[m..])
  }

  function Touches(i: nat, off: nat, n: nat): seq<Act>
    decreases n
  {
    if n == 0 then [] else var m := Span1(off, n); [Touch(i, off)] + Touches(i, off + m, n - m)
  }

  /** The steps of an operation on file f. */
  function Acts(f: File, op: Op): seq<Act>
    requires op.Write? || op.Read? || op.Truncate?
  {
    match op
    case Write(i, off, src) =>
      if !Writes(f, off, |src|) then []
      else Rounds(i, off, src) + if off + |src| > f.size then [Grow(i, off + |src|)] else []
    case Read(i, off, n) => if Reads(f, off, n) then Touches(i, off, Last(f.size, off, n) - off) else []
    case Truncate(i) => [Cut(i)]
  }

  // ---- what steps do to the one file ------------------------------------------------------------------------

  predicate Sensible(f: File, a: Act) {
    && |f.bytes| == MAXFILE * BSIZE
    && match a
       case Round(_, pos, part) => 0 < |part| && pos % BSIZE + |part| <= BSIZE && pos + |part| <= MAXFILE * BSIZE
       case Touch(_, pos) => pos < f.size
       case Grow(_, size) => size <= MAXFILE * BSIZE
       case Cut(_) => true
       case Drop(_) => false
  }

  function ActOn(f: File, a: Act): (g: File)
    requires Sensible(f, a)
    ensures |g.bytes| == MAXFILE * BSIZE
  {
    match a
    case Round(_, pos, part) => f.(bytes := Patch(f.bytes, pos, part), refs := f.refs + Want(a))
    case Touch(_, _) => f.(refs := f.refs + Want(a))
    case Grow(_, size) => f.(size := size, saved := AddrsOf(f.refs))
    case Cut(_) => Emptied(f)
  }

  /** The blocks a step takes, or less than 0 if it gives some back. */
  function Takes(f: File, a: Act): int
    requires Sensible(f, a)
  {
    if a.Cut? then -|f.refs| else |Want(a) - f.refs|
  }

  lemma DoIs(p: Plain, a: Act)
    requires a.inum < |p.files| && Sensible(p.files[a.inum], a)
    ensures Doable(p, a) && (Room(p, a) <==> p.free - Takes(p.files[a.inum], a) >= 0)
    ensures Room(p, a) ==>
              Do(p, a) == Plain(p.files[a.inum := ActOn(p.files[a.inum], a)], p.free - Takes(p.files[a.inum], a),
                p.lost)
  {
    var f := p.files[a.inum];
    if a.Grow? || a.Cut? {
      assert {} - f.refs == {};
    }
  }

  predicate Runs(f: File, acts: seq<Act>)
    decreases |acts|
  {
    |acts| == 0 || (Sensible(f, acts[0]) && Runs(ActOn(f, acts[0]), acts[1..]))
  }

  function After(f: File, acts: seq<Act>): File
    requires Runs(f, acts)
    decreases |acts|
  {
    if |acts| == 0 then f else After(ActOn(f, acts[0]), acts[1..])
  }

  function Taken(f: File, acts: seq<Act>): int
    requires Runs(f, acts)
    decreases |acts|
  {
    if |acts| == 0 then 0 else Takes(f, acts[0]) + Taken(ActOn(f, acts[0]), acts[1..])
  }

  lemma {:induction false} RunsTwice(f: File, a: seq<Act>, b: seq<Act>)
    requires Runs(f, a)
    ensures Runs(f, a + b) <==> Runs(After(f, a), b)
    ensures Runs(f, a + b) ==>
              After(f, a + b) == After(After(f, a), b) && Taken(f, a + b) == Taken(f, a) + Taken(After(f, a), b)
    decreases |a|
  {
    hide Sensible, ActOn, Takes;
    if |a| == 0 {
      assert a + b == b;
    } else {
      assert (a + b)[1..] == a[1..] + b;
      RunsTwice(ActOn(f, a[0]), a[1..], b);
    }
  }

  lemma RunsCons(f: File, a: Act, acts: seq<Act>)
    requires Sensible(f, a) && Runs(ActOn(f, a), acts)
    ensures Runs(f, [a] + acts) && After(f, [a] + acts) == After(ActOn(f, a), acts)
    ensures Taken(f, [a] + acts) == Takes(f, a) + Taken(ActOn(f, a), acts)
  {
    hide Sensible, ActOn, Takes;
    assert ([a] + acts)[1..] == acts;
  }

  // ---- that they make up the operation ----------------------------------------------------------------------

  lemma PatchSplit(c: seq<Byte>, off: nat, m: nat, src: seq<Byte>)
    requires off + |src| <= |c| && m <= |src|
    ensures Patch(Patch(c, off, src[..m]), off + m, src[m..]) == Patch(c, off, src)
  {
  }

  /** The effect of taking the references for some bytes. */
  function With(f: File, need: set<nat>, bytes: seq<Byte>): File {
    f.(bytes := bytes, refs := f.refs + need)
  }

  lemma WithTwice(f: File, a: set<nat>, b: set<nat>, bytes1: seq<Byte>, bytes2: seq<Byte>)
    ensures With(With(f, a, bytes1), b, bytes2) == With(f, a + b, bytes2)
    ensures |(a + b) - f.refs| == |a - f.refs| + |b - With(f, a, bytes1).refs|
  {
    assert f.refs + a + b == f.refs + (a + b);
    CountSplit(a, b, f.refs);
  }

  lemma WithNone(f: File, off: nat)
    ensures Needed(off, 0) == {} && With(f, {}, f.bytes) == f && |{} - f.refs| == 0
  {
    assert f.refs + {} == f.refs && {} - f.refs == {};
  }

  lemma PatchNone(c: seq<Byte>, off: nat)
    requires off <= |c|
    ensures Patch(c, off, []) == c
  {
  }

  lemma RoundIs(f: File, i: nat, pos: nat, part: seq<Byte>)
    requires |f.bytes| == MAXFILE * BSIZE && 0 < |part| && pos % BSIZE + |part| <= BSIZE
    requires pos + |part| <= MAXFILE * BSIZE
    ensures var a := Round(i, pos, part);
            && Sensible(f, a) && ActOn(f, a) == With(f, Needed(pos, |part|), Patch(f.bytes, pos, part))
            && Takes(f, a) == |Needed(pos, |part|) - f.refs|
  {
    hide Needed, Patch;
  }

  lemma {:induction false} RoundsMake(f: File, i: nat, off: nat, src: seq<Byte>)
    requires |f.bytes| == MAXFILE * BSIZE && off + |src| <= MAXFILE * BSIZE
    ensures Runs(f, Rounds(i, off, src)) && Taken(f, Rounds(i, off, src)) == |Needed(off, |src|) - f.refs|
    ensures After(f, Rounds(i, off, src)) == With(f, Needed(off, |src|), Patch(f.bytes, off, src))
    decreases |src|
  {
    hide Needed, Patch, Runs, After, Taken, With, ActOn, Takes, Sensible;
    if |src| == 0 {
      WithNone(f, off);
      PatchNone(f.bytes, off);
      NoActs(f);
    } else {
      var m := Span1(off, |src|);
      var part, rest := src[..m], src[m..];
      RoundIs(f, i, off, part);
      PatchSplit(f.bytes, off, m, src);
      RoundsMake(ActOn(f, Round(i, off, part)), i, off + m, rest);
      RunsCons(f, Round(i, off, part), Rounds(i, off + m, rest));
      WithBytes(f, Needed(off, m), Patch(f.bytes, off, part));
      NeededSplit(off, m, |src|);
      WithTwice(f, Needed(off, m), Needed(off + m, |src| - m), Patch(f.bytes, off, part), Patch(f.bytes, off, src));
    }
  }

  lemma WithBytes(f: File, need: set<nat>, bytes: seq<Byte>)
    ensures With(f, need, bytes).bytes == bytes && With(f, need, bytes).size == f.size
  {
  }

  lemma SameBlock(off: nat, m: nat)
    requires 0 < m && off % BSIZE + m <= BSIZE
    ensures Needed(off, m) == Needed(off, 1)
  {
    assert (off + m - 1) / BSIZE == off / BSIZE == (off + 1 - 1) / BSIZE;
  }

  lemma TouchIs(f: File, i: nat, pos: nat, m: nat)
    requires |f.bytes| == MAXFILE * BSIZE && pos < f.size && 0 < m && pos % BSIZE + m <= BSIZE
    ensures var a := Touch(i, pos);
            && Sensible(f, a) && ActOn(f, a) == With(f, Needed(pos, m), f.bytes)
            && Takes(f, a) == |Needed(pos, m) - f.refs|
  {
    hide Needed;
    SameBlock(pos, m);
  }

  lemma {:induction false} TouchesMake(f: File, i: nat, off: nat, n: nat)
    requires |f.bytes| == MAXFILE * BSIZE && off + n <= f.size
    ensures Runs(f, Touches(i, off, n)) && Taken(f, Touches(i, off, n)) == |Needed(off, n) - f.refs|
    ensures After(f, Touches(i, off, n)) == With(f, Needed(off, n), f.bytes)
    decreases n
  {
    hide Needed, Runs, After, Taken, With, ActOn, Takes, Sensible;
    if n == 0 {
      WithNone(f, off);
      NoActs(f);
    } else {
      var m := Span1(off, n);
      TouchIs(f, i, off, m);
      WithBytes(f, Needed(off, m), f.bytes);
      TouchesMake(ActOn(f, Touch(i, off)), i, off + m, n - m);
      RunsCons(f, Touch(i, off), Touches(i, off + m, n - m));
      NeededSplit(off, m, n);
      WithTwice(f, Needed(off, m), Needed(off + m, n - m), f.bytes, f.bytes);
    }
  }

  lemma GrowMakes(f: File, i: nat, size: nat)
    requires |f.bytes| == MAXFILE * BSIZE && size <= MAXFILE * BSIZE
    ensures Runs(f, [Grow(i, size)]) && Taken(f, [Grow(i, size)]) == 0
    ensures After(f, [Grow(i, size)]) == f.(size := size, saved := AddrsOf(f.refs))
  {
    assert {} - f.refs == {};
    assert [Grow(i, size)][1..] == [];
  }

  lemma CutMakes(f: File, i: nat)
    requires |f.bytes| == MAXFILE * BSIZE
    ensures Runs(f, [Cut(i)]) && Taken(f, [Cut(i)]) == -|f.refs| && After(f, [Cut(i)]) == Emptied(f)
  {
    assert [Cut(i)][1..] == [];
  }

  /** All its steps together do what the operation does, to the file and to the free blocks. */
  lemma ActsMake(p: Plain, op: Op)
    requires Sized(p) && Callable(op, |p.files|) && (op.Write? || op.Read? || op.Truncate?)
    ensures var f := p.files[op.inum]; var acts := Acts(f, op);
            && Runs(f, acts) && (Fits(p, op) <==> p.free - Taken(f, acts) >= 0)
            && (Fits(p, op) ==>
              Apply(p, op) == Plain(p.files[op.inum := After(f, acts)], p.free - Taken(f, acts), p.lost))
  {
    hide Needed, Patch, Rounds, Touches, Runs, After, Taken, Zeros;
    var f := p.files[op.inum];
    match op
    case Write(i, off, src) =>
      if Writes(f, off, |src|) {
        RoundsMake(f, i, off, src);
        if off + |src| > f.size {
          var g := After(f, Rounds(i, off, src));
          GrowMakes(g, i, off + |src|);
          RunsTwice(f, Rounds(i, off, src), [Grow(i, off + |src|)]);
        } else {
          assert Rounds(i, off, src) + [] == Rounds(i, off, src);
        }
      } else {
        NoActs(f);
        NothingWanted(p, op);
      }
    case Read(i, off, n) =>
      if Reads(f, off, n) {
        TouchesMake(f, i, off, Last(f.size, off, n) - off);
      } else {
        NoActs(f);
        NothingWanted(p, op);
      }
    case Truncate(i) =>
      CutMakes(f, i);
      assert {} - f.refs == {};
  }

  lemma NoActs(f: File)
    ensures Runs(f, []) && After(f, []) == f && Taken(f, []) == 0
  {
  }

  /** All steps but a truncation only take blocks. */
  lemma {:induction false} TakenSome(f: File, acts: seq<Act>)
    requires Runs(f, acts) && forall k | 0 <= k < |acts| :: !acts[k].Cut?
    ensures Taken(f, acts) >= 0
    decreases |acts|
  {
    if |acts| > 0 {
      TakenSome(ActOn(f, acts[0]), acts[1..]);
    }
  }

  lemma {:induction false} RoundsOn(i: nat, off: nat, src: seq<Byte>)
    ensures forall k | 0 <= k < |Rounds(i, off, src)| ::
              Rounds(i, off, src)[k].Round? && Rounds(i, off, src)[k].inum == i
    decreases |src|
  {
    if |src| > 0 {
      var m := Span1(off, |src|);
      RoundsOn(i, off + m, src[m..]);
    }
  }

  lemma {:induction false} TouchesOn(i: nat, off: nat, n: nat)
    ensures forall k | 0 <= k < |Touches(i, off, n)| :: Touches(i, off, n)[k].Touch? && Touches(i, off, n)[k].inum == i
    decreases n
  {
    if n > 0 {
      var m := Span1(off, n);
      TouchesOn(i, off + m, n - m);
    }
  }

  /** The steps are on the operation's own inode, and a truncation is one step. */
  lemma ActsOn(f: File, op: Op)
    requires op.Write? || op.Read? || op.Truncate?
    ensures forall k | 0 <= k < |Acts(f, op)| :: Acts(f, op)[k].inum == op.inum && !Acts(f, op)[k].Drop?
    ensures op.Truncate? ==> |Acts(f, op)| == 1
    ensures !op.Truncate? ==> forall k | 0 <= k < |Acts(f, op)| :: !Acts(f, op)[k].Cut?
  {
    hide Rounds, Touches;
    match op
    case Write(i, off, src) => RoundsOn(i, off, src);
    case Read(i, off, n) =>
      if Reads(f, off, n) {
        TouchesOn(i, off, Last(f.size, off, n) - off);
      }
    case Truncate(i) =>
  }
}
