/** The ticket lottery of scheduler() in src/proc.c: one pass counts the tickets of the RUNNABLE processes, the
    generator draws a number, and a second pass finds the process that holds it. */
module Lottery {
  import opened Generator

  datatype Entry = Entry(runnable: bool, tickets: nat)

  /** The tickets of the RUNNABLE processes among the first n. */
  function Upto(t: seq<Entry>, n: nat): (c: nat)
    requires n <= |t|
  {
    if n == 0 then 0 else Upto(t, n - 1) + if t[n - 1].runnable then t[n - 1].tickets else 0
  }

  lemma {:induction false} UptoGrows(t: seq<Entry>, i: nat, j: nat)
    requires i <= j <= |t|
    ensures Upto(t, i) <= Upto(t, j)
    decreases j - i
  {
    if i < j {
      UptoGrows(t, i, j - 1);
    }
  }

  predicate First(t: seq<Entry>, i: nat) {
    i < |t| && t[i].runnable && forall j | 0 <= j < i :: !t[j].runnable
  }

  lemma {:induction false} NoneBefore(t: seq<Entry>, i: nat)
    requires i <= |t| && forall j | 0 <= j < i :: !t[j].runnable
    ensures Upto(t, i) == 0
    decreases i
  {
    if i > 0 {
      NoneBefore(t, i - 1);
    }
  }

  /** The numbers that select process i: those after the tickets of the processes before it, up to and including
      its own last one; and 0 as well, for the first. */
  predicate Wins(t: seq<Entry>, i: nat, r: nat)
    requires i < |t|
  {
    t[i].runnable && r <= Upto(t, i + 1) && (First(t, i) || Upto(t, i) < r)
  }

  /** The first loop. */
  method CountTickets(t: seq<Entry>) returns (count: nat)
    requires Upto(t, |t|) < INT_MAX
    ensures count == Upto(t, |t|)
  {
    count := 0;
    var p := 0;
    while p < |t|
      invariant p <= |t| && count == Upto(t, p) <= INT_MAX
    {
      UptoGrows(t, p + 1, |t|);
      if t[p].runnable {
        count := count + t[p].tickets;
      }
      p := p + 1;
    }
  }

  /** The second loop: the process switched to, or -1 when the loop finds none. */
  method Choose(t: seq<Entry>, r: nat) returns (k: int)
    requires Upto(t, |t|) < INT_MAX && r <= Upto(t, |t|)
    ensures k == -1 <==> forall i | 0 <= i < |t| :: !t[i].runnable
    ensures -1 <= k < |t| && forall i: nat | i < |t| :: k == i <==> Wins(t, i, r)
  {
    var count := 0;
    var p := 0;
    while p < |t|
      invariant p <= |t| && count == Upto(t, p) <= INT_MAX
      invariant forall i | 0 <= i < p && t[i].runnable :: Upto(t, i + 1) < r
    {
      UptoGrows(t, p + 1, |t|);
      if t[p].runnable {
        count := count + t[p].tickets;
        if count >= r {
          OnlyWinner(t, p, r);
          return p;
        }
      }
      p := p + 1;
    }
    NoneLeft(t, r);
    k := -1;
  }

  /** Process p is the first whose running total reaches r; no other process wins. */
  lemma OnlyWinner(t: seq<Entry>, p: nat, r: nat)
    requires p < |t| && t[p].runnable && r <= Upto(t, p + 1)
    requires forall i | 0 <= i < p && t[i].runnable :: Upto(t, i + 1) < r
    ensures forall i: nat | i < |t| :: p == i <==> Wins(t, i, r)
  {
    forall i: nat | i < |t| ensures p == i <==> Wins(t, i, r) {
      if i > p {
        UptoGrows(t, p + 1, i);
      } else if i == p && !First(t, p) {
        LastBefore(t, p, r);
      }
    }
  }

  /** The total before p is that of the last RUNNABLE process before p. */
  lemma {:induction false} LastBefore(t: seq<Entry>, p: nat, r: nat)
    requires p <= |t| && (exists j | 0 <= j < p :: t[j].runnable)
    requires forall i | 0 <= i < p && t[i].runnable :: Upto(t, i + 1) < r
    ensures Upto(t, p) < r
    decreases p
  {
    if !t[p - 1].runnable {
      LastBefore(t, p - 1, r);
    }
  }

  lemma NoneLeft(t: seq<Entry>, r: nat)
    requires r <= Upto(t, |t|) && forall i | 0 <= i < |t| && t[i].runnable :: Upto(t, i + 1) < r
    ensures forall i | 0 <= i < |t| :: !t[i].runnable
  {
    if exists j | 0 <= j < |t| :: t[j].runnable {
      LastBefore(t, |t|, r);
    }
  }

  // ---- exactness --------------------------------------------------------------------------------------

  function Range(lo: nat, hi: nat): (s: set<nat>)
    requires lo <= hi
    ensures |s| == hi - lo && forall x: nat :: x in s <==> lo <= x < hi
    decreases hi - lo
  {
    if lo == hi then {} else Range(lo, hi - 1) + {hi - 1}
  }

  /** As r ranges over 0 .. count, each RUNNABLE process wins for exactly as many values as it has tickets, plus one
      more for the first; the others never win. */
  lemma Exact(t: seq<Entry>, i: nat)
    requires i < |t|
    ensures var wins := set r | r in Range(0, Upto(t, |t|) + 1) && Wins(t, i, r);
            |wins| == if !t[i].runnable then 0 else t[i].tickets + if First(t, i) then 1 else 0
  {
    var wins := set r | r in Range(0, Upto(t, |t|) + 1) && Wins(t, i, r);
    UptoGrows(t, i + 1, |t|);
    if First(t, i) {
      NoneBefore(t, i);
    }
    if t[i].runnable {
      var lo := if First(t, i) then 0 else Upto(t, i) + 1;
      var hi := Upto(t, i + 1) + 1;
      SameSet(t, i, lo, hi);
    } else {
      assert wins == {};
    }
  }

  lemma SameSet(t: seq<Entry>, i: nat, lo: nat, hi: nat)
    requires i < |t| && t[i].runnable && lo <= hi == Upto(t, i + 1) + 1 <= Upto(t, |t|) + 1
    requires lo == if First(t, i) then 0 else Upto(t, i) + 1
    ensures (set r | r in Range(0, Upto(t, |t|) + 1) && Wins(t, i, r)) == Range(lo, hi)
  {
    var wins := set r | r in Range(0, Upto(t, |t|) + 1) && Wins(t, i, r);
    var all, some := Range(0, Upto(t, |t|) + 1), Range(lo, hi);
    assert forall r: nat :: r in wins <==> r in some;
  }

  // ---- the generator ------------------------------------------------------------------------------------

  /** The process that a value of the generator selects. */
  predicate Picks(t: seq<Entry>, i: nat, value: nat)
    requires i < |t|
  {
    Wins(t, i, value % (Upto(t, |t|) + 1))
  }

  /** One round of the scheduler's choice: the process that wins the number made of the generator's next value. */
  method Draw(t: seq<Entry>, seed: nat) returns (k: int, next: nat)
    requires seed < SEEDS && Upto(t, |t|) < INT_MAX
    ensures next == NextSeed(seed)
    ensures k == -1 <==> forall i | 0 <= i < |t| :: !t[i].runnable
    ensures -1 <= k < |t| && forall i: nat | i < |t| :: k == i <==> Picks(t, i, next)
    ensures k >= 0 ==> Wins(t, k, next % (Upto(t, |t|) + 1))
  {
    var count := CountTickets(t);
    next := NextSeed(seed);
    var r := 0;
    if count != 0 {
      r := next % (count + 1);
    }
    k := Choose(t, r);
  }

  lemma Remainder(v: nat, m: nat)
    requires m > 0
    ensures v % m <= v && v % m < m && (v < m ==> v % m == v)
  {
  }

  /** Which processes some value of the generator selects: the first RUNNABLE one, and those that have a ticket and
      whose first ticket is not beyond the largest value. */
  lemma Reachable(t: seq<Entry>, i: nat)
    requires i < |t|
    ensures (exists s: nat :: s < SEEDS && Picks(t, i, s))
            <==> First(t, i) || (t[i].runnable && t[i].tickets > 0 && Upto(t, i) + 1 < SEEDS)
  {
    var m := Upto(t, |t|) + 1;
    UptoGrows(t, i + 1, |t|);
    if First(t, i) {
      Remainder(0, m);
      assert Picks(t, i, 0);
    } else if t[i].runnable && t[i].tickets > 0 && Upto(t, i) + 1 < SEEDS {
      Remainder(Upto(t, i) + 1, m);
      assert Picks(t, i, Upto(t, i) + 1);
    } else {
      forall s: nat | s < SEEDS ensures !Picks(t, i, s) {
        Remainder(s, m);
      }
    }
  }

  /** And which are selected, however the seed stands, if the table stays as it is: the same ones, within a period. */
  lemma Selected(t: seq<Entry>, i: nat, seed: nat)
    requires i < |t| && seed < SEEDS
    ensures (exists k: nat :: k < SEEDS && Picks(t, i, Seeds(NextSeed(seed), k)))
            <==> First(t, i) || (t[i].runnable && t[i].tickets > 0 && Upto(t, i) + 1 < SEEDS)
  {
    hide Picks, Seeds, NextSeed, Upto, First;
    Reachable(t, i);
    if s: nat :| s < SEEDS && Picks(t, i, s) {
      var k := OneCycle(NextSeed(seed), s);
      assert Picks(t, i, Seeds(NextSeed(seed), k));
    }
  }

  // ---- how often, in a period -----------------------------------------------------------------------------

  /** The rounds of a period, after some seed, in which the generator gives one of the values. */
  ghost function RoundsOf(seed: nat, values: set<nat>): set<nat>
    requires seed < SEEDS
  {
    set k: nat | k < SEEDS && Seeds(NextSeed(seed), k) in values
  }

  lemma {:induction false} Covered(seed: nat, values: set<nat>, rounds: set<nat>)
    requires seed < SEEDS && forall v | v in values :: exists k :: k in rounds && Seeds(NextSeed(seed), k) == v
    ensures |values| <= |rounds|
    decreases |values|
  {
    if v :| v in values {
      var k :| k in rounds && Seeds(NextSeed(seed), k) == v;
      var vs, ks := values - {v}, rounds - {k};
      forall w | w in vs ensures exists j :: j in ks && Seeds(NextSeed(seed), j) == w {
        var j :| j in rounds && Seeds(NextSeed(seed), j) == w;
        assert j in ks;
      }
      Covered(seed, vs, ks);
    }
  }

  lemma ValuesMet(seed: nat, values: set<nat>)
    requires seed < SEEDS && forall v | v in values :: v < SEEDS
    ensures |values| <= |RoundsOf(seed, values)|
  {
    hide Seeds, NextSeed;
    forall v | v in values ensures exists k :: k in RoundsOf(seed, values) && Seeds(NextSeed(seed), k) == v {
      var k := OneCycle(NextSeed(seed), v);
      assert k in RoundsOf(seed, values);
    }
    Covered(seed, values, RoundsOf(seed, values));
  }

  lemma {:induction false} FirstNumbers(n: nat) returns (all: set<nat>)
    ensures |all| == n && forall v: nat :: v in all <==> v < n
  {
    if n == 0 {
      all := {};
    } else {
      all := FirstNumbers(n - 1);
      all := all + {n - 1};
    }
  }

  lemma RoundsSplit(seed: nat, all: set<nat>, values: set<nat>, others: set<nat>)
    requires seed < SEEDS && (forall v: nat :: v in all <==> v < SEEDS) && values + others == all && values !! others
    ensures |RoundsOf(seed, values)| + |RoundsOf(seed, others)| == |all|
  {
    hide Seeds, NextSeed;
    var r1, r2 := RoundsOf(seed, values), RoundsOf(seed, others);
    assert r1 + r2 == all && r1 !! r2;
  }

  /** Each value of the generator comes once: there are as many rounds as values. */
  lemma EachOnce(seed: nat, values: set<nat>)
    requires seed < SEEDS && forall v | v in values :: v < SEEDS
    ensures |RoundsOf(seed, values)| == |values|
  {
    var all := FirstNumbers(SEEDS);
    var others := all - values;
    ValuesMet(seed, values);
    ValuesMet(seed, others);
    assert values + others == all && values !! others;
    RoundsSplit(seed, all, values, others);
    hide RoundsOf;
  }

  /** The numbers below n with remainder r. */
  function WithRemainder(n: nat, m: nat, r: nat): (s: set<nat>)
    requires m > 0
  {
    set v: nat | v < n && v % m == r
  }

  lemma DivNext(n: nat, m: nat)
    requires m > 0
    ensures n % m < m
    ensures if n % m == m - 1 then (n + 1) / m == n / m + 1 && (n + 1) % m == 0
            else (n + 1) / m == n / m && (n + 1) % m == n % m + 1
  {
    var q, x := n / m, n % m;
    assert n == q * m + x;
    if x == m - 1 {
      assert n + 1 == (q + 1) * m;
      MultipleMod(q + 1, m);
      DivIs(n + 1, m, q + 1, 0);
    } else {
      DivIs(n + 1, m, q, x + 1);
    }
  }

  lemma DivIs(n: nat, m: nat, q: nat, x: nat)
    requires m > 0 && n == q * m + x && x < m
    ensures n / m == q && n % m == x
  {
    var e := n / m - q;
    assert e * m == x - n % m by { assert n == n / m * m + n % m; }
    assert e >= 1 ==> e * m >= m;
    assert e <= -1 ==> e * m + m <= 0;
  }

  /** Each remainder comes as often as any other, or once more. */
  lemma {:induction false} Remainders(n: nat, m: nat, r: nat)
    requires r < m
    ensures |WithRemainder(n, m, r)| == n / m + if r < n % m then 1 else 0
    decreases n
  {
    if n == 0 {
      DivIs(0, m, 0, 0);
      assert WithRemainder(0, m, r) == {};
    } else {
      Remainders(n - 1, m, r);
      DivNext(n - 1, m);
      hide *;
      RemaindersNext(n, m, r);
    }
  }

  lemma RemaindersNext(n: nat, m: nat, r: nat)
    requires m > 0 && n > 0
    ensures |WithRemainder(n, m, r)| == |WithRemainder(n - 1, m, r)| + if (n - 1) % m == r then 1 else 0
  {
    var a, b := WithRemainder(n - 1, m, r), WithRemainder(n, m, r);
    if (n - 1) % m == r {
      assert b == a + {n - 1};
    } else {
      assert b == a;
    }
  }

  /** The draw: within a period each number from 0 to the count is drawn the same number of times, or once more. */
  lemma DrawnEvenly(count: nat, seed: nat, r: nat)
    requires seed < SEEDS && r <= count
    ensures |set k: nat | k < SEEDS && Seeds(NextSeed(seed), k) % (count + 1) == r|
            == SEEDS / (count + 1) + if r < SEEDS % (count + 1) then 1 else 0
  {
    var values := WithRemainder(SEEDS, count + 1, r);
    EachOnce(seed, values);
    Remainders(SEEDS, count + 1, r);
    RoundsWith(seed, count + 1, r);
    hide *;
  }

  lemma RoundsWith(seed: nat, m: nat, r: nat)
    requires seed < SEEDS && m > 0
    ensures (set k: nat | k < SEEDS && Seeds(NextSeed(seed), k) % m == r) == RoundsOf(seed, WithRemainder(SEEDS, m, r))
  {
    hide Seeds, NextSeed;
  }

  /** The numbers below n whose remainder is among some. */
  function WithRemainders(n: nat, m: nat, rs: set<nat>): (s: set<nat>)
    requires m > 0
    ensures forall v | v in s :: v < n
  {
    set v: nat | v < n && v % m in rs
  }

  lemma {:induction false} SomeRemainders(n: nat, m: nat, rs: set<nat>)
    requires m > 0 && forall r | r in rs :: r < m
    ensures |rs| * (n / m) <= |WithRemainders(n, m, rs)| <= |rs| * (n / m + 1)
    decreases |rs|
  {
    if r :| r in rs {
      var rest := rs - {r};
      SomeRemainders(n, m, rest);
      Remainders(n, m, r);
      OneMore(n, m, rest, r);
      assert rest + {r} == rs && |rs| == |rest| + 1;
      hide WithRemainder, WithRemainders;
      Times(|rest|, n / m);
      Times(|rest|, n / m + 1);
    } else {
      assert WithRemainders(n, m, rs) == {};
    }
  }

  lemma Times(a: nat, b: nat)
    ensures (a + 1) * b == a * b + b
  {
  }

  lemma OneMore(n: nat, m: nat, rs: set<nat>, r: nat)
    requires m > 0 && r !in rs
    ensures |WithRemainders(n, m, rs + {r})| == |WithRemainders(n, m, rs)| + |WithRemainder(n, m, r)|
  {
    var a, b := WithRemainder(n, m, r), WithRemainders(n, m, rs);
    assert WithRemainders(n, m, rs + {r}) == a + b && a !! b;
  }

  /** How often Draw picks a process in a period, if the table stays as it is: within one round per winning number of
      its exact share of the rounds.  The winning numbers are its tickets, and one more for the first RUNNABLE process.
      */
  lemma Shares(t: seq<Entry>, i: nat, seed: nat)
    requires i < |t| && seed < SEEDS
    ensures var m := Upto(t, |t|) + 1;
            var wins := if !t[i].runnable then 0 else t[i].tickets + if First(t, i) then 1 else 0;
            var rounds := set k: nat | k < SEEDS && Wins(t, i, Seeds(NextSeed(seed), k) % m);
            wins * (SEEDS / m) <= |rounds| <= wins * (SEEDS / m + 1)
  {
    hide Upto, First, Seeds, NextSeed;
    var m := Upto(t, |t|) + 1;
    var wins := Winning(t, i, m);
    Exact(t, i);
    RoundsWon(t, i, seed, m, wins);
    hide Wins, Winning, Range, WithRemainders, RoundsOf;
    SomeRemainders(SEEDS, m, wins);
    EachOnce(seed, WithRemainders(SEEDS, m, wins));
  }

  ghost function Winning(t: seq<Entry>, i: nat, m: nat): (s: set<nat>)
    requires i < |t|
    ensures forall r | r in s :: r < m
  {
    set r | r in Range(0, m) && Wins(t, i, r)
  }

  lemma RoundsWon(t: seq<Entry>, i: nat, seed: nat, m: nat, wins: set<nat>)
    requires i < |t| && seed < SEEDS && m > 0 && wins == Winning(t, i, m)
    ensures (set k: nat | k < SEEDS && Wins(t, i, Seeds(NextSeed(seed), k) % m))
            == RoundsOf(seed, WithRemainders(SEEDS, m, wins))
  {
    hide Seeds, NextSeed, Wins, Range;
    forall k: nat | k < SEEDS
      ensures Wins(t, i, Seeds(NextSeed(seed), k) % m) <==> k in RoundsOf(seed, WithRemainders(SEEDS, m, wins))
    {
      Remainder(Seeds(NextSeed(seed), k), m);
    }
  }
}
