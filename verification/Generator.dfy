/** The number generator of scheduler() in src/proc.c: from any seed it goes through all of them. */
module Generator {

  const INT_MAX := 0x7FFF_FFFF
  const SEEDS := 134456

  /** The generator stays in range, and its product fits an int. */
  function NextSeed(seed: nat): (s: nat)
    requires seed < SEEDS
    ensures s < SEEDS && 8121 * seed + 28411 <= INT_MAX
  {
    (8121 * seed + 28411) % SEEDS
  }

  /** The seed after k rounds. */
  function Seeds(seed: nat, k: nat): (s: nat)
    requires seed < SEEDS
    ensures s < SEEDS
  {
    if k == 0 then seed else NextSeed(Seeds(seed, k - 1))
  }

  lemma {:induction false} SeedsAdd(seed: nat, j: nat, k: nat)
    requires seed < SEEDS
    ensures Seeds(seed, j + k) == Seeds(Seeds(seed, j), k)
  {
    if k > 0 {
      SeedsAdd(seed, j, k - 1);
    }
  }

  // ---- congruences -----------------------------------------------------------------------------------

  predicate Cong(a: int, b: int, n: nat)
    requires n > 0
  {
    (a - b) % n == 0
  }

  /** A multiple of n is congruent to 0. */
  lemma MultipleMod(q: int, n: nat)
    requires n > 0
    ensures q * n % n == 0
  {
    var x := q * n;
    var e := x / n - q;
    assert e * n == -(x % n) by { assert x == x / n * n + x % n; }
    assert e >= 1 ==> e * n >= n;
    assert e <= -1 ==> e * n + n <= 0;
  }

  lemma CongBy(a: int, b: int, n: nat, q: int)
    requires n > 0 && a - b == q * n
    ensures Cong(a, b, n)
  {
    MultipleMod(q, n);
  }

  lemma CongTrans(a: int, b: int, c: int, n: nat)
    requires n > 0 && Cong(a, b, n) && Cong(b, c, n)
    ensures Cong(a, c, n)
  {
    var q, r := (a - b) / n, (b - c) / n;
    assert a - c == q * n + r * n == (q + r) * n;
    CongBy(a, c, n, q + r);
  }

  lemma CongLine(a: int, b: int, k: int, c: int, n: nat)
    requires n > 0 && Cong(a, b, n)
    ensures Cong(k * a + c, k * b + c, n)
  {
    var q := (a - b) / n;
    assert k * a + c - (k * b + c) == k * (a - b) == k * (q * n) == k * q * n;
    CongBy(k * a + c, k * b + c, n, k * q);
  }

  lemma CongMod(x: int, n: nat)
    requires n > 0
    ensures Cong(x % n, x, n)
  {
    CongBy(x % n, x, n, -(x / n));
  }

  /** What is congruent modulo the period is modulo its divisors. */
  lemma CongDivisor(a: int, b: int, n: nat)
    requires n > 0 && SEEDS % n == 0 && Cong(a, b, SEEDS)
    ensures Cong(a, b, n)
  {
    var q, d := (a - b) / SEEDS, SEEDS / n;
    assert a - b == q * SEEDS == q * (d * n) == q * d * n;
    CongBy(a, b, n, q * d);
  }

  // ---- many rounds at once ---------------------------------------------------------------------------

  /** Some number of rounds multiplies the seed by one number and adds another. */
  datatype Jump = Jump(mul: nat, add: nat)

  function After(f: Jump, g: Jump): Jump {
    Jump(f.mul * g.mul % SEEDS, (f.mul * g.add + f.add) % SEEDS)
  }

  ghost predicate Jumps(k: nat, f: Jump) {
    forall seed: nat | seed < SEEDS :: Cong(Seeds(seed, k), f.mul * seed + f.add, SEEDS)
  }

  lemma AfterCong(f: Jump, g: Jump, seed: nat, mid: nat, end: nat)
    requires Cong(mid, g.mul * seed + g.add, SEEDS) && Cong(end, f.mul * mid + f.add, SEEDS)
    ensures Cong(end, After(f, g).mul * seed + After(f, g).add, SEEDS)
  {
    var m, a := f.mul * g.mul, f.mul * g.add + f.add;
    CongLine(mid, g.mul * seed + g.add, f.mul, f.add, SEEDS);
    assert f.mul * (g.mul * seed + g.add) + f.add == m * seed + a;
    CongTrans(end, f.mul * mid + f.add, m * seed + a, SEEDS);
    CongBy(m * seed + a, m * seed + a % SEEDS, SEEDS, a / SEEDS);
    CongTrans(end, m * seed + a, m * seed + a % SEEDS, SEEDS);
    CongBy(m, m % SEEDS, SEEDS, m / SEEDS);
    CongLine(m, m % SEEDS, seed, a % SEEDS, SEEDS);
    assert seed * m == m * seed && seed * (m % SEEDS) == m % SEEDS * seed;
    CongTrans(end, m * seed + a % SEEDS, m % SEEDS * seed + a % SEEDS, SEEDS);
  }

  lemma JumpsAdd(j: nat, f: Jump, k: nat, g: Jump)
    requires Jumps(j, f) && Jumps(k, g)
    ensures Jumps(j + k, After(g, f))
  {
    hide Cong, After, Seeds;
    forall seed: nat | seed < SEEDS
      ensures Cong(Seeds(seed, j + k), After(g, f).mul * seed + After(g, f).add, SEEDS)
    {
      SeedsAdd(seed, j, k);
      AfterCong(g, f, seed, Seeds(seed, j), Seeds(seed, j + k));
    }
  }

  /** Seven times k rounds, as k after six times k. */
  lemma JumpsSeven(k: nat, f: Jump, f2: Jump, f4: Jump, f6: Jump)
    requires Jumps(k, f) && f2 == After(f, f) && f4 == After(f2, f2) && f6 == After(f4, f2)
    ensures Jumps(7 * k, After(f, f6))
  {
    hide Jumps, After;
    JumpsAdd(k, f, k, f);
    JumpsAdd(2 * k, f2, 2 * k, f2);
    JumpsAdd(2 * k, f2, 4 * k, f4);
    JumpsAdd(6 * k, f6, k, f);
  }

  lemma JumpsOnce()
    ensures Jumps(1, Jump(8121, 28411))
  {
    forall seed: nat | seed < SEEDS ensures Cong(Seeds(seed, 1), 8121 * seed + 28411, SEEDS) {
      hide Cong;
      assert Seeds(seed, 0) == seed;
      CongMod(8121 * seed + 28411, SEEDS);
    }
  }

  lemma PowersOfTwo()
    ensures Jumps(1, Jump(8121, 28411)) && Jumps(2, Jump(67201, 27646)) && Jumps(4, Jump(729, 87940))
    ensures Jumps(8, Jump(128073, 60688))
  {
    JumpsOnce();
    hide Jumps;
    JumpsAdd(1, Jump(8121, 28411), 1, Jump(8121, 28411));
    JumpsAdd(2, Jump(67201, 27646), 2, Jump(67201, 27646));
    JumpsAdd(4, Jump(729, 87940), 4, Jump(729, 87940));
  }

  lemma Power56()
    requires Jumps(8, Jump(128073, 60688))
    ensures Jumps(56, Jump(45865, 133168))
  {
    hide Jumps;
    JumpsSeven(8, Jump(128073, 60688), Jump(2521, 56920), Jump(36009, 87688), Jump(20889, 72704));
  }

  lemma Power392()
    requires Jumps(56, Jump(45865, 133168))
    ensures Jumps(392, Jump(52137, 87024))
  {
    hide Jumps;
    JumpsSeven(56, Jump(45865, 133168), Jump(34105, 85232), Jump(106625, 118328), Jump(83105, 99288));
  }

  lemma Power2744()
    requires Jumps(392, Jump(52137, 87024))
    ensures Jumps(2744, Jump(96041, 71344))
  {
    hide Jumps;
    JumpsSeven(392, Jump(52137, 87024), Jump(104273, 39592), Jump(74089, 79184), Jump(43905, 118776));
  }

  lemma Power19208()
    requires Jumps(2744, Jump(96041, 71344))
    ensures Jumps(19208, Jump(1, 96040))
  {
    hide Jumps;
    JumpsSeven(2744, Jump(96041, 71344), Jump(57625, 8232), Jump(115249, 16464), Jump(38417, 24696));
  }

  lemma Power134456()
    requires Jumps(19208, Jump(1, 96040))
    ensures Jumps(134456, Jump(1, 0))
  {
    hide Jumps;
    JumpsSeven(19208, Jump(1, 96040), Jump(1, 57624), Jump(1, 115248), Jump(1, 38416));
  }

  // ---- from any seed to any other --------------------------------------------------------------------

  /** m rounds, seen modulo a divisor n of the period, add w to the seed. */
  ghost predicate Shifts(m: nat, n: nat, w: nat) {
    n > 0 && SEEDS % n == 0 && exists f: Jump :: Jumps(m, f) && Cong(f.mul, 1, n) && Cong(f.add, w, n)
  }

  lemma ShiftOnce(seed: nat, m: nat, n: nat, w: nat)
    requires seed < SEEDS && Shifts(m, n, w)
    ensures Cong(Seeds(seed, m), seed + w, n)
  {
    hide Seeds, Cong;
    var f: Jump :| Jumps(m, f) && Cong(f.mul, 1, n) && Cong(f.add, w, n);
    CongDivisor(Seeds(seed, m), f.mul * seed + f.add, n);
    CongLine(f.mul, 1, seed, f.add, n);
    assert seed * f.mul == f.mul * seed && seed * 1 == seed;
    CongTrans(Seeds(seed, m), f.mul * seed + f.add, seed + f.add, n);
    CongLine(f.add, w, 1, seed, n);
    CongTrans(Seeds(seed, m), seed + f.add, seed + w, n);
  }

  lemma ShiftMore(seed: nat, k: nat, x: int, m: nat, n: nat, w: nat)
    requires seed < SEEDS && Shifts(m, n, w) && Cong(Seeds(seed, k), x, n)
    ensures Cong(Seeds(seed, k + m), x + w, n)
  {
    hide Seeds, Jumps, Cong;
    var z := Seeds(seed, k);
    SeedsAdd(seed, k, m);
    ShiftOnce(z, m, n, w);
    CongLine(z, x, 1, w, n);
    CongTrans(Seeds(seed, k + m), z + w, x + w, n);
  }

  lemma {:induction false} ShiftMany(seed: nat, m: nat, n: nat, w: nat, j: nat)
    requires seed < SEEDS && Shifts(m, n, w)
    ensures Cong(Seeds(seed, j * m), seed + j * w, n)
    decreases j
  {
    hide Jumps;
    if j == 0 {
      assert j * m == 0 && j * w == 0;
    } else {
      hide Seeds, Cong;
      assert j * m == (j - 1) * m + m && j * w == (j - 1) * w + w;
      ShiftMany(seed, m, n, w, j - 1);
      ShiftMore(seed, (j - 1) * m, seed + (j - 1) * w, m, n, w);
    }
  }

  /** A seed that agrees with the target modulo m is fewer than p times m rounds from one that does modulo p times m.
      These rounds add u times m, and v is the inverse of u modulo p. */
  lemma Closer(seed: nat, target: nat, m: nat, p: nat, u: nat, v: nat) returns (j: nat)
    requires seed < SEEDS && m > 0 && p > 0 && u * v % p == 1 && Shifts(m, p * m, u * m)
    requires Cong(target, seed, m)
    ensures j < p && Cong(Seeds(seed, j * m), target, p * m)
  {
    hide Seeds, Shifts, Jumps, Cong;
    j := Gap(seed, target, m, p, u, v);
    ShiftMany(seed, m, p * m, u * m, j);
    CongTrans(Seeds(seed, j * m), seed + j * (u * m), target, p * m);
  }

  lemma Gap(seed: int, target: int, m: nat, p: nat, u: nat, v: nat) returns (j: nat)
    requires m > 0 && p > 0 && u * v % p == 1 && Cong(target, seed, m)
    ensures p * m > 0 && j < p && Cong(seed + j * (u * m), target, p * m)
  {
    var d := (target - seed) / m;
    j := d * v % p;
    Inverse(d, u, v, p, j);
    GapIs(seed, target, m, p, j, u, d, (j * u - d) / p);
  }

  lemma GapIs(seed: int, target: int, m: nat, p: nat, j: int, u: int, d: int, e: int)
    requires m > 0 && p > 0 && target - seed == d * m && j * u - d == e * p
    ensures p * m > 0 && Cong(seed + j * (u * m), target, p * m)
  {
    assert j * (u * m) == (j * u) * m == (d + e * p) * m == d * m + e * (p * m);
    CongBy(seed + j * (u * m), target, p * m, e);
  }

  lemma Inverse(d: int, u: nat, v: nat, p: nat, j: nat)
    requires p > 0 && u * v % p == 1 && j == d * v % p
    ensures Cong(j * u, d, p)
  {
    CongMod(d * v, p);
    CongBy(u * v, 1, p, u * v / p);
    hide Cong;
    CongLine(j, d * v, u, 0, p);
    CongLine(u * v, 1, d, 0, p);
    assert u * (d * v) == d * (u * v);
    CongTrans(u * j, d * (u * v), d, p);
  }

  lemma SeedShifts()
    ensures Shifts(1, 2, 1) && Shifts(2, 4, 2) && Shifts(4, 8, 4) && Shifts(8, 56, 40) && Shifts(56, 392, 280)
    ensures Shifts(392, 2744, 1960) && Shifts(2744, 19208, 13720) && Shifts(19208, 134456, 96040)
    ensures Jumps(SEEDS, Jump(1, 0))
  {
    hide Jumps;
    PowersOfTwo();
    Power56();
    Power392();
    Power2744();
    Power19208();
    Power134456();
  }

  /** One cycle: from any seed the generator comes to any other, within a period, and a period later it is back. */
  lemma OneCycle(seed: nat, target: nat) returns (k: nat)
    requires seed < SEEDS && target < SEEDS
    ensures k < SEEDS && Seeds(seed, k) == target && Seeds(seed, SEEDS) == seed
  {
    hide Seeds, Shifts, Jumps;
    SeedShifts();
    k := 0;
    var j;
    j := Reach(seed, target, 0, 1, 2, 1, 1);
    j := Reach(seed, target, j, 2, 2, 1, 1);
    j := Reach(seed, target, j, 4, 2, 1, 1);
    j := Reach(seed, target, j, 8, 7, 5, 3);
    j := Reach(seed, target, j, 56, 7, 5, 3);
    j := Reach(seed, target, j, 392, 7, 5, 3);
    j := Reach(seed, target, j, 2744, 7, 5, 3);
    k := Reach(seed, target, j, 19208, 7, 5, 3);
    Same(Seeds(seed, k), target);
    Back(seed);
  }

  lemma Same(a: nat, b: nat)
    requires a < SEEDS && b < SEEDS && Cong(a, b, SEEDS)
    ensures a == b
  {
  }

  lemma Back(seed: nat)
    requires seed < SEEDS && Jumps(SEEDS, Jump(1, 0))
    ensures Seeds(seed, SEEDS) == seed
  {
    hide Seeds;
    Same(Seeds(seed, SEEDS), seed);
  }

  /** k rounds agree with the target modulo m; fewer than p times m do modulo p times m. */
  lemma Reach(seed: nat, target: nat, k: nat, m: nat, p: nat, u: nat, v: nat) returns (k2: nat)
    requires seed < SEEDS && m > 0 && p > 0 && u * v % p == 1 && Shifts(m, p * m, u * m)
    requires k < m && Cong(Seeds(seed, k), target, m)
    ensures p * m > 0 && k2 < p * m && Cong(Seeds(seed, k2), target, p * m)
  {
    hide Seeds, Shifts, Jumps, Cong;
    CongSym(Seeds(seed, k), target, m);
    var j := Closer(Seeds(seed, k), target, m, p, u, v);
    k2 := k + j * m;
    SeedsAdd(seed, k, j * m);
    Below(j, p, m);
  }

  lemma Below(j: nat, p: nat, m: nat)
    requires j < p
    ensures j * m + m <= p * m
  {
    assert p * m == (j + 1) * m + (p - j - 1) * m;
  }

  lemma CongSym(a: int, b: int, n: nat)
    requires n > 0 && Cong(a, b, n)
    ensures Cong(b, a, n)
  {
    var q := (a - b) / n;
    assert b - a == -(q * n) == -q * n;
    CongBy(b, a, n, -q);
  }
}
