/** Round-robin selection with its 32-bit counter (proxy/internal/balancer/balancer.go):
    every call scans at most as many places as there are backends, and the counter
    wraps around. */
module RoundRobin {
  import opened Wrappers

  const WRAP := 0x1_0000_0000

  datatype Scan = Scan(found: Option<nat>, counter: int)

  /** The loop of roundRobinSelect with `left` tries to go. */
  function Select(alive: seq<bool>, counter: int, left: nat): Scan
    requires alive != [] && 0 <= counter < WRAP
    decreases left
  {
    if left == 0 then Scan(None, counter)
    else
      var next := (counter + 1) % WRAP;
      if alive[next % |alive|] then Scan(Some(next % |alive|), next) else Select(alive, next, left - 1)
  }

  lemma {:induction false} SelectFindsAlive(alive: seq<bool>, counter: int, left: nat)
    requires alive != [] && 0 <= counter < WRAP
    ensures var r := Select(alive, counter, left);
      && 0 <= r.counter < WRAP
      && (r.found.Some? ==> r.found.value < |alive| && alive[r.found.value] && r.found.value == r.counter % |alive|)
    decreases left
  {
    if left > 0 {
      SelectFindsAlive(alive, (counter + 1) % WRAP, left - 1);
    }
  }

  /** The counter has 32 bits: after its greatest value it is zero again. */
  lemma {:induction false} CounterWraps(alive: seq<bool>, counter: int)
    requires alive != [] && 0 <= counter <= 4294967295 && forall i :: 0 <= i < |alive| ==> alive[i]
    ensures Select(alive, counter, |alive|).counter == if counter == 4294967295 then 0 else counter + 1
  {
  }

  // ----------------------------------------------------------- modular steps

  lemma {:induction false} ModIs(x: int, n: int, q: int, r: int)
    requires n > 0 && x == q * n + r && 0 <= r < n
    ensures x % n == r
  {
    var p := x / n;
    assert x == p * n + x % n;
    if p < q {
      MulMonotone(n, p + 1, q);
    } else if q < p {
      MulMonotone(n, q + 1, p);
    }
  }

  lemma {:induction false} MulMonotone(x: int, a: int, b: int)
    requires x >= 0 && a <= b
    ensures x * a <= x * b
  {
    assert x * (b - a) >= 0;
  }

  /** The place t steps after a counter value, when nothing wraps. */
  lemma {:induction false} ReachPlace(base: int, n: int, i: int) returns (t: int)
    requires 0 <= i < n
    ensures 0 <= t < n && (base + t) % n == i
  {
    var q, r := base / n, base % n;
    assert base == q * n + r;
    if r <= i {
      t := i - r;
      ModIs(base + t, n, q, i);
    } else {
      t := i - r + n;
      assert (q + 1) * n == q * n + n;
      ModIs(base + t, n, q + 1, i);
    }
  }

  // ------------------------------------------ when the scan sees every place

  /** The place that try number t of a scan looks at. */
  function Place(counter: int, n: int, t: int): int
    requires n > 0
  {
    ((counter + 1 + t) % WRAP) % n
  }

  lemma {:induction false} SelectMisses(alive: seq<bool>, counter: int, left: nat)
    requires alive != [] && 0 <= counter < WRAP
    ensures Select(alive, counter, left).found == None <==>
            forall t :: 0 <= t < left ==> !alive[Place(counter, |alive|, t)]
    decreases left
  {
    if left > 0 {
      var next := (counter + 1) % WRAP;
      SelectMisses(alive, next, left - 1);
      forall t | 0 <= t < left - 1 ensures Place(next, |alive|, t) == Place(counter, |alive|, t + 1) {
        WrapStep(counter, t);
      }
      assert Place(counter, |alive|, 0) == next % |alive|;
      if forall t :: 0 <= t < left - 1 ==> !alive[Place(next, |alive|, t)] {
        forall t | 1 <= t < left ensures !alive[Place(counter, |alive|, t)] {
          assert Place(next, |alive|, t - 1) == Place(counter, |alive|, t);
        }
      }
    }
  }

  lemma {:induction false} WrapStep(counter: int, t: int)
    requires 0 <= counter < WRAP
    ensures ((counter + 1) % WRAP + 1 + t) % WRAP == (counter + 2 + t) % WRAP
  {
    if counter + 1 == WRAP {
      var x := t + 1;
      assert x == (x / WRAP) * WRAP + x % WRAP;
      ModIs(x + WRAP, WRAP, x / WRAP + 1, x % WRAP);
    }
  }

  /** The guard: the counter does not wrap within this scan, or wraps at its very
      start, or the number of backends divides 2^32. */
  predicate NoGap(counter: int, n: int)
    requires n > 0
  {
    counter + n < WRAP || counter == WRAP - 1 || WRAP % n == 0
  }

  lemma {:induction false} NoGapSees(counter: int, n: int, i: int) returns (t: int)
    requires 0 < n <= WRAP && 0 <= counter < WRAP && NoGap(counter, n) && 0 <= i < n
    ensures 0 <= t < n && Place(counter, n, t) == i
  {
    if counter == WRAP - 1 {
      t := i;
      ModIs(WRAP + i, WRAP, if i < WRAP then 1 else 2, if i < WRAP then i else i - WRAP);
      ModIs(i, n, 0, i);
    } else {
      t := ReachPlace(counter + 1, n, i);
      var v := counter + 1 + t;
      if v < WRAP {
        ModIs(v, WRAP, 0, v);
      } else {
        ModIs(v, WRAP, 1, v - WRAP);
        assert WRAP == (WRAP / n) * n;
        assert v == (v / n) * n + i;
        assert v - WRAP == (v / n - WRAP / n) * n + i;
        ModIs(v - WRAP, n, v / n - WRAP / n, i);
      }
    }
  }

  /** Otherwise the scan jumps over this place. */
  function Gap(counter: int, n: int): int
    requires n > 0
  {
    var d, rest := WRAP % n, n - (WRAP - 1 - counter);
    if d > rest then d else rest
  }

  lemma {:induction false} GapIsMissed(counter: int, n: int, t: int)
    requires 0 < n <= WRAP && 0 <= counter < WRAP && !NoGap(counter, n) && 0 <= t < n
    ensures 0 <= Gap(counter, n) < n && Place(counter, n, t) != Gap(counter, n)
  {
    var e, q, d := WRAP - 1 - counter, WRAP / n, WRAP % n;
    var v := counter + 1 + t;
    assert WRAP == q * n + d;
    if t < e {
      ModIs(v, WRAP, 0, v);
      if d - e + t >= 0 {
        ModIs(v, n, q, d - e + t);
      } else {
        assert (q - 1) * n == q * n - n;
        ModIs(v, n, q - 1, n + d - e + t);
      }
    } else {
      ModIs(v, WRAP, 1, v - WRAP);
      ModIs(t - e, n, 0, t - e);
    }
  }

  /** A nil result means that nobody is alive, for every pattern of live backends,
      exactly when the scan has no gap. */
  lemma {:induction false} NilMeansNobodyIff(counter: int, n: int)
    requires 0 < n <= WRAP && 0 <= counter < WRAP
    ensures NoGap(counter, n) <==>
      forall alive: seq<bool> :: |alive| == n && Select(alive, counter, n).found == None ==> true !in alive
  {
    if NoGap(counter, n) {
      forall alive: seq<bool> | |alive| == n && Select(alive, counter, n).found == None ensures true !in alive {
        SelectMisses(alive, counter, n);
        if i :| 0 <= i < n && alive[i] {
          var t := NoGapSees(counter, n, i);
        }
      }
    } else {
      var gap := Gap(counter, n);
      GapIsMissed(counter, n, 0);
      var alive := seq(n, i => i == gap);
      SelectMisses(alive, counter, n);
      forall t | 0 <= t < n ensures !alive[Place(counter, n, t)] {
        GapIsMissed(counter, n, t);
      }
      assert alive[gap];
    }
  }

  // ---------------------------------------------------------------- fairness

  /** How many places a scan looks at. */
  function Tries(alive: seq<bool>, counter: int, left: nat): (t: nat)
    requires alive != [] && 0 <= counter < WRAP
    ensures t <= left
    decreases left
  {
    if left == 0 then 0
    else
      var next := (counter + 1) % WRAP;
      if alive[next % |alive|] then 1 else 1 + Tries(alive, next, left - 1)
  }

  /** What a row of selections chose, the counter they left, and the places looked at. */
  datatype Picks = Picks(chosen: seq<Option<nat>>, counter: int, looked: nat)

  /** k selections in a row over a fixed set of live backends. */
  function Rounds(alive: seq<bool>, counter: int, k: nat): (p: Picks)
    requires alive != [] && 0 <= counter < WRAP
    ensures 0 <= p.counter < WRAP && |p.chosen| == k
  {
    if k == 0 then Picks([], counter, 0)
    else
      var before := Rounds(alive, counter, k - 1);
      var r := Select(alive, before.counter, |alive|);
      SelectFindsAlive(alive, before.counter, |alive|);
      Picks(before.chosen + [r.found], r.counter, before.looked + Tries(alive, before.counter, |alive|))
  }

  /** The counter is higher after each selection than before. */
  predicate Rises(alive: seq<bool>, counter: int, k: nat)
    requires alive != [] && 0 <= counter < WRAP
  {
    k == 0 ||
    (Rises(alive, counter, k - 1) && Rounds(alive, counter, k - 1).counter < Rounds(alive, counter, k).counter)
  }

  /** Wrapping does not matter: it does not happen, or the places come round with it. */
  predicate Seamless(alive: seq<bool>, counter: int, k: nat)
    requires alive != [] && 0 <= counter < WRAP
  {
    WRAP % |alive| == 0 || Rises(alive, counter, k)
  }

  /** v is the counter without its wraps. */
  predicate StandsFor(n: int, counter: int, v: int)
    requires n > 0
  {
    counter == v || (WRAP % n == 0 && counter == v % WRAP)
  }

  lemma {:induction false} SamePlace(n: int, counter: int, v: int)
    requires n > 0 && 0 <= counter < WRAP && v >= 0 && StandsFor(n, counter, v)
    ensures counter % n == v % n
  {
    if counter != v {
      var p, q := v / WRAP, WRAP / n;
      assert v == p * WRAP + counter && WRAP == q * n;
      var a, r := counter / n, counter % n;
      assert counter == a * n + r;
      assert p * (q * n) == (p * q) * n && (p * q) * n + a * n == (p * q + a) * n;
      ModIs(v, n, p * q + a, r);
    }
  }

  lemma {:induction false} NextStandsFor(n: int, counter: int, v: int)
    requires n > 0 && 0 <= counter < WRAP && v >= 0 && StandsFor(n, counter, v)
    requires WRAP % n == 0 || counter + 1 < WRAP
    ensures StandsFor(n, (counter + 1) % WRAP, v + 1)
  {
    var p := v / WRAP;
    assert v == p * WRAP + v % WRAP;
    if counter + 1 < WRAP {
      ModIs(counter + 1, WRAP, 0, counter + 1);
      if counter == v % WRAP {
        ModIs(v + 1, WRAP, p, counter + 1);
      }
    } else {
      ModIs(counter + 1, WRAP, 1, 0);
      if counter == v % WRAP {
        assert (p + 1) * WRAP == p * WRAP + WRAP;
        ModIs(v + 1, WRAP, p + 1, 0);
      } else {
        ModIs(v, WRAP, 0, v);
      }
    }
  }

  lemma {:induction false} NextPlace(n: int, counter: int, v: int)
    requires n > 0 && 0 <= counter < WRAP && v >= 0 && StandsFor(n, counter, v)
    requires WRAP % n == 0 || counter + 1 < WRAP
    ensures var next := (counter + 1) % WRAP;
      StandsFor(n, next, v + 1) && next % n == (v + 1) % n && (counter + 1 < WRAP ==> next == counter + 1)
  {
    NextStandsFor(n, counter, v);
    SamePlace(n, (counter + 1) % WRAP, v + 1);
    if counter + 1 < WRAP {
      ModIs(counter + 1, WRAP, 0, counter + 1);
    }
  }

  lemma {:induction false} CounterAfter(alive: seq<bool>, counter: int, left: nat)
    requires alive != [] && 0 <= counter < WRAP
    ensures Select(alive, counter, left).counter == (counter + Tries(alive, counter, left)) % WRAP
    decreases left
  {
    if left == 0 {
      ModIs(counter, WRAP, 0, counter);
    } else {
      var next := (counter + 1) % WRAP;
      if !alive[next % |alive|] {
        CounterAfter(alive, next, left - 1);
        WrapStep(counter, Tries(alive, next, left - 1) - 1);
      }
    }
  }

  /** A counter that has risen has not wrapped. */
  lemma {:induction false} RisenIsUnwrapped(alive: seq<bool>, counter: int)
    requires 0 < |alive| <= WRAP && 0 <= counter < WRAP && counter < Select(alive, counter, |alive|).counter
    ensures counter + Tries(alive, counter, |alive|) < WRAP
  {
    var x := counter + Tries(alive, counter, |alive|);
    CounterAfter(alive, counter, |alive|);
    if x >= WRAP {
      ModIs(x, WRAP, 1, x - WRAP);
    }
  }

  /** Every place that a scan looks at, in terms of the unwrapped counter. */
  lemma {:induction false} ScanLands(alive: seq<bool>, counter: int, v: int, left: nat)
    requires alive != [] && 0 <= counter < WRAP && v >= 0 && StandsFor(|alive|, counter, v)
    requires WRAP % |alive| == 0 || counter + Tries(alive, counter, left) < WRAP
    ensures var r, t := Select(alive, counter, left), Tries(alive, counter, left);
      && StandsFor(|alive|, r.counter, v + t)
      && (forall x :: v < x < v + t ==> !alive[x % |alive|])
      && (r.found.Some? ==> t > 0 && r.found.value == (v + t) % |alive| && alive[r.found.value])
      && (r.found.None? ==> t == left && (t > 0 ==> !alive[(v + t) % |alive|]))
    decreases left
  {
    if left > 0 {
      var next := (counter + 1) % WRAP;
      NextPlace(|alive|, counter, v);
      if !alive[next % |alive|] {
        ScanLands(alive, next, v + 1, left - 1);
      }
    }
  }

  /** A selection found the first live place after lo, which is hi. */
  ghost predicate Lands(alive: seq<bool>, lo: int, hi: int, found: Option<nat>)
    requires alive != []
  {
    lo < hi && found == Some(hi % |alive|) && alive[hi % |alive|] && forall x :: lo < x < hi ==> !alive[x % |alive|]
  }

  lemma {:induction false} NextRound(alive: seq<bool>, counter: int, k: nat)
    requires alive != [] && 0 <= counter < WRAP && k > 0
    ensures var before, p := Rounds(alive, counter, k - 1), Rounds(alive, counter, k);
      var r := Select(alive, before.counter, |alive|);
      && p.chosen == before.chosen + [r.found] == before.chosen + [p.chosen[k - 1]] && p.counter == r.counter
      && p.looked == before.looked + Tries(alive, before.counter, |alive|)
  {
  }

  lemma {:induction false} ScanIsSeamless(alive: seq<bool>, counter: int, k: nat)
    requires 0 < |alive| <= WRAP && 0 <= counter < WRAP && k > 0 && Seamless(alive, counter, k)
    ensures Seamless(alive, counter, k - 1)
    ensures var before := Rounds(alive, counter, k - 1).counter;
      WRAP % |alive| == 0 || before + Tries(alive, before, |alive|) < WRAP
  {
    if WRAP % |alive| != 0 {
      RisenIsUnwrapped(alive, Rounds(alive, counter, k - 1).counter);
    }
  }

  /** One selection of a row, in those terms. */
  lemma {:induction false} RoundLands(alive: seq<bool>, counter: int, k: nat)
    requires true in alive && |alive| <= WRAP && 0 <= counter < WRAP && Seamless(alive, counter, k)
    ensures StandsFor(|alive|, Rounds(alive, counter, k).counter, counter + Rounds(alive, counter, k).looked)
    ensures k > 0 ==>
      Lands(alive, counter + Rounds(alive, counter, k - 1).looked, counter + Rounds(alive, counter, k).looked,
            Rounds(alive, counter, k).chosen[k - 1])
  {
    if k > 0 {
      var before := Rounds(alive, counter, k - 1);
      ScanIsSeamless(alive, counter, k);
      RoundLands(alive, counter, k - 1);
      NextRound(alive, counter, k);
      FullScan(alive, before.counter, counter + before.looked);
    }
  }

  lemma {:induction false} FullScan(alive: seq<bool>, counter: int, v: int)
    requires true in alive && 0 <= counter < WRAP && v >= 0 && StandsFor(|alive|, counter, v)
    requires WRAP % |alive| == 0 || counter + Tries(alive, counter, |alive|) < WRAP
    ensures var r, hi := Select(alive, counter, |alive|), v + Tries(alive, counter, |alive|);
      StandsFor(|alive|, r.counter, hi) && Lands(alive, v, hi, r.found)
  {
    ScanLands(alive, counter, v, |alive|);
    var x := SomebodySeen(alive, v);
  }

  lemma {:induction false} SomebodySeen(alive: seq<bool>, v: int) returns (x: int)
    requires true in alive
    ensures v < x <= v + |alive| && alive[x % |alive|]
  {
    var i :| 0 <= i < |alive| && alive[i];
    var t := ReachPlace(v + 1, |alive|, i);
    x := v + 1 + t;
  }

  /** How often i was chosen. */
  function Hits(chosen: seq<Option<nat>>, i: nat): nat {
    if chosen == [] then 0
    else Hits(chosen[..|chosen| - 1], i) + if chosen[|chosen| - 1] == Some(i) then 1 else 0
  }

  /** How often counter values above lo and up to hi land on place i. */
  function Window(n: int, lo: int, hi: int, i: int): nat
    requires n > 0
    decreases hi - lo
  {
    if hi <= lo then 0 else Window(n, lo, hi - 1, i) + if hi % n == i then 1 else 0
  }

  lemma {:induction false} WindowSplit(n: int, lo: int, mid: int, hi: int, i: int)
    requires n > 0 && lo <= mid <= hi
    ensures Window(n, lo, hi, i) == Window(n, lo, mid, i) + Window(n, mid, hi, i)
    decreases hi - mid
  {
    if mid < hi {
      WindowSplit(n, lo, mid, hi - 1, i);
    }
  }

  lemma {:induction false} WindowSkips(n: int, lo: int, hi: int, i: int)
    requires n > 0 && lo <= hi && forall x :: lo < x <= hi ==> x % n != i
    ensures Window(n, lo, hi, i) == 0
    decreases hi - lo
  {
    if lo < hi {
      WindowSkips(n, lo, hi - 1, i);
    }
  }

  lemma {:induction false} WindowToNext(alive: seq<bool>, lo: int, mid: int, hi: int, found: Option<nat>, i: nat)
    requires i < |alive| && lo <= mid && Lands(alive, mid, hi, found)
    ensures alive[i] ==> Window(|alive|, lo, hi, i) == Window(|alive|, lo, mid, i) + if found == Some(i) then 1 else 0
    ensures !alive[i] ==> found != Some(i)
  {
    if alive[i] {
      WindowSplit(|alive|, lo, mid, hi - 1, i);
      WindowSkips(|alive|, mid, hi - 1, i);
    }
  }

  lemma {:induction false} OneMoreHit(chosen: seq<Option<nat>>, c: Option<nat>, i: nat)
    ensures Hits(chosen + [c], i) == Hits(chosen, i) + if c == Some(i) then 1 else 0
  {
    assert (chosen + [c])[..|chosen|] == chosen;
  }

  ghost predicate HitsAre(alive: seq<bool>, counter: int, p: Picks, i: nat)
    requires i < |alive|
  {
    Hits(p.chosen, i) == if alive[i] then Window(|alive|, counter, counter + p.looked, i) else 0
  }

  lemma {:induction false} HitsStep(alive: seq<bool>, counter: int, before: Picks, p: Picks, found: Option<nat>, i: nat)
    requires i < |alive| && HitsAre(alive, counter, before, i) && p.chosen == before.chosen + [found]
    requires Lands(alive, counter + before.looked, counter + p.looked, found)
    ensures HitsAre(alive, counter, p, i)
  {
    OneMoreHit(before.chosen, found, i);
    WindowToNext(alive, counter, counter + before.looked, counter + p.looked, found, i);
  }

  /** A live backend is chosen once for every counter value that lands on it. */
  lemma {:induction false} HitsAreLandings(alive: seq<bool>, counter: int, k: nat, i: nat)
    requires true in alive && |alive| <= WRAP && 0 <= counter < WRAP && i < |alive| && Seamless(alive, counter, k)
    ensures HitsAre(alive, counter, Rounds(alive, counter, k), i)
  {
    if k > 0 {
      var before, p := Rounds(alive, counter, k - 1), Rounds(alive, counter, k);
      HitsAreLandings(alive, counter, k - 1, i);
      RoundLands(alive, counter, k);
      NextRound(alive, counter, k);
      HitsStep(alive, counter, before, p, p.chosen[k - 1], i);
    }
  }

  /** In fewer than n steps a place is met at most once, in n exactly once. */
  lemma {:induction false} WindowOfOneTurn(n: int, lo: int, hi: int, i: int)
    requires n > 0 && lo <= hi <= lo + n && 0 <= i < n
    ensures Window(n, lo, hi, i) <= 1
    ensures hi == lo + n ==> Window(n, lo, hi, i) == 1
  {
    var t := ReachPlace(lo + 1, n, i);
    var x := lo + 1 + t;
    forall y | lo < y <= lo + n && y != x ensures y % n != i {
      OnePerTurn(n, x, y);
    }
    if x <= hi {
      WindowSplit(n, lo, x, hi, i);
      WindowSkips(n, lo, x - 1, i);
      WindowSkips(n, x, hi, i);
    } else {
      WindowSkips(n, lo, hi, i);
    }
  }

  lemma {:induction false} OnePerTurn(n: int, x: int, y: int)
    requires n > 0 && x != y && -n < x - y < n
    ensures x % n != y % n
  {
    var p, q := x / n, y / n;
    assert x == p * n + x % n && y == q * n + y % n;
    if p < q {
      MulMonotone(n, p + 1, q);
    } else if q < p {
      MulMonotone(n, q + 1, p);
    }
  }

  /** Any two places are met equally often, up to one. */
  lemma {:induction false} WindowsAreEven(n: int, lo: int, hi: int, i: int, j: int)
    requires n > 0 && lo <= hi && 0 <= i < n && 0 <= j < n
    ensures Window(n, lo, hi, i) <= Window(n, lo, hi, j) + 1
    decreases hi - lo
  {
    if hi <= lo + n {
      WindowOfOneTurn(n, lo, hi, i);
      WindowOfOneTurn(n, lo, hi, j);
    } else {
      WindowSplit(n, lo, lo + n, hi, i);
      WindowSplit(n, lo, lo + n, hi, j);
      WindowOfOneTurn(n, lo, lo + n, i);
      WindowOfOneTurn(n, lo, lo + n, j);
      WindowsAreEven(n, lo + n, hi, i, j);
    }
  }

  function AliveCount(alive: seq<bool>, m: nat): nat
    requires m <= |alive|
  {
    if m == 0 then 0 else AliveCount(alive, m - 1) + if alive[m - 1] then 1 else 0
  }

  /** All choices of the first m backends. */
  function HitsOfFirst(chosen: seq<Option<nat>>, m: nat): nat {
    if m == 0 then 0 else HitsOfFirst(chosen, m - 1) + Hits(chosen, m - 1)
  }

  lemma {:induction false} OneMoreChoice(chosen: seq<Option<nat>>, c: nat, m: nat)
    ensures HitsOfFirst(chosen + [Some(c)], m) == HitsOfFirst(chosen, m) + if c < m then 1 else 0
  {
    if m > 0 {
      OneMoreChoice(chosen, c, m - 1);
      assert (chosen + [Some(c)])[..|chosen|] == chosen;
    }
  }

  lemma {:induction false} AllChoices(alive: seq<bool>, counter: int, k: nat)
    requires true in alive && |alive| <= WRAP && 0 <= counter < WRAP && Seamless(alive, counter, k)
    ensures HitsOfFirst(Rounds(alive, counter, k).chosen, |alive|) == k
  {
    if k == 0 {
      NoChoices(|alive|);
    } else {
      var before, p := Rounds(alive, counter, k - 1), Rounds(alive, counter, k);
      AllChoices(alive, counter, k - 1);
      RoundLands(alive, counter, k);
      NextRound(alive, counter, k);
      OneMoreChoice(before.chosen, p.chosen[k - 1].value, |alive|);
    }
  }

  lemma {:induction false} NoChoices(m: nat)
    ensures HitsOfFirst([], m) == 0
  {
    if m > 0 {
      NoChoices(m - 1);
    }
  }

  /** Every live backend within one of h, the dead ones never chosen. */
  ghost predicate Even(alive: seq<bool>, chosen: seq<Option<nat>>, h: nat) {
    forall j :: 0 <= j < |alive| ==> if alive[j] then h - 1 <= Hits(chosen, j) <= h + 1 else Hits(chosen, j) == 0
  }

  /** What evenness allows the first m backends together. */
  lemma {:induction false} ShareBounds(alive: seq<bool>, chosen: seq<Option<nat>>, h: nat, i: nat, m: nat)
    requires m <= |alive| && i < |alive| && alive[i] && Hits(chosen, i) == h && Even(alive, chosen, h)
    ensures var extra := if i < m then 1 else 0;
      var a := AliveCount(alive, m);
      a * h - a + extra <= HitsOfFirst(chosen, m) <= a * h + a - extra
  {
    if m > 0 {
      ShareBounds(alive, chosen, h, i, m - 1);
      if alive[m - 1] {
        Distribute(AliveCount(alive, m - 1), h);
      }
    }
  }

  lemma {:induction false} Distribute(a: int, h: int)
    ensures (a + 1) * h == a * h + h
  {
  }

  lemma {:induction false} RoundsAreEven(alive: seq<bool>, counter: int, k: nat, i: nat)
    requires true in alive && |alive| <= WRAP && 0 <= counter < WRAP && Seamless(alive, counter, k)
    requires i < |alive| && alive[i]
    ensures var chosen := Rounds(alive, counter, k).chosen; Even(alive, chosen, Hits(chosen, i))
  {
    var p := Rounds(alive, counter, k);
    HitsAreLandings(alive, counter, k, i);
    forall j | 0 <= j < |alive|
      ensures if alive[j] then Hits(p.chosen, i) - 1 <= Hits(p.chosen, j) <= Hits(p.chosen, i) + 1
              else Hits(p.chosen, j) == 0
    {
      HitsAreLandings(alive, counter, k, j);
      WindowsAreEven(|alive|, counter, counter + p.looked, i, j);
      WindowsAreEven(|alive|, counter, counter + p.looked, j, i);
    }
  }

  /** Fairness: k selections over a live backends choose each of them k / a times,
      rounded down or up, and nobody else; as long as the counter rises, or for ever
      if the number of backends divides 2^32. */
  lemma {:induction false} RoundRobinIsFair(alive: seq<bool>, counter: int, k: nat, i: nat)
    requires true in alive && |alive| <= WRAP && 0 <= counter < WRAP && i < |alive| && Seamless(alive, counter, k)
    ensures var h, a := Hits(Rounds(alive, counter, k).chosen, i), AliveCount(alive, |alive|);
      && a > 0
      && if alive[i] then k / a <= h <= (k + a - 1) / a else h == 0
  {
    var chosen := Rounds(alive, counter, k).chosen;
    SomeAlive(alive, |alive|);
    if alive[i] {
      AllChoices(alive, counter, k);
      RoundsAreEven(alive, counter, k, i);
      ShareBounds(alive, chosen, Hits(chosen, i), i, |alive|);
      RoundedShare(k, AliveCount(alive, |alive|), Hits(chosen, i));
    } else {
      HitsAreLandings(alive, counter, k, i);
    }
  }

  lemma {:induction false} SomeAlive(alive: seq<bool>, m: nat)
    requires m <= |alive|
    ensures AliveCount(alive, m) > 0 <==> exists i :: 0 <= i < m && alive[i]
  {
    if m > 0 {
      SomeAlive(alive, m - 1);
    }
  }

  lemma {:induction false} RoundedShare(k: nat, a: int, h: nat)
    requires a > 0 && a * h - a + 1 <= k <= a * h + a - 1
    ensures k / a <= h <= (k + a - 1) / a
  {
    Distribute(h, a);
    ShareAtMost(k, a, h);
    ShareAtLeast(k + a - 1, a, h);
  }

  lemma {:induction false} ShareAtMost(x: nat, a: int, h: nat)
    requires a > 0 && x < (h + 1) * a
    ensures x / a <= h
  {
    var q := x / a;
    assert q * a <= x;
    if h < q {
      MulMonotone(a, h + 1, q);
    }
  }

  lemma {:induction false} ShareAtLeast(x: nat, a: int, h: nat)
    requires a > 0 && h * a <= x
    ensures h <= x / a
  {
    var p := x / a;
    assert x < p * a + a;
    if p < h {
      MulMonotone(a, p + 1, h);
      Distribute(p, a);
    }
  }
}
