/** How much one node can admit for one route in the spans that are flushed into one
    interval counter, although every span starts from a fresh local count.  The answer
    depends on which calls may meet the end of a span. */
module IntervalBound {
  import opened Throttle

  /** What is assumed of the calls of a run, with a store that is reachable throughout.
      Calm: none is under way when a span is swapped out, and none passes the check
      until that span is dealt with.  Whole: the first of these only.  Free: neither. */
  datatype Calls = Calm | Whole | Free

  predicate Fits(cfg: Config, t: Sys, e: Event, calls: Calls) {
    && (e.Flush? ==> e.reachable)
    && (!calls.Free? && e.Swap? ==> t.pending == map[])
    && (calls.Calm? && e.Check? ==> t.flush.Idle? || t.now < t.blockedUntil)
  }

  predicate Obeys(cfg: Config, s: Sys, es: seq<Event>, calls: Calls)
    requires cfg.Valid()
  {
    es == [] ||
    (Obeys(cfg, s, es[..|es| - 1], calls) && Fits(cfg, Run(cfg, s, es[..|es| - 1]), es[|es| - 1], calls))
  }

  function AdmittedSum(cfg: Config, s: Sys, es: seq<Event>, lo: int, hi: int): nat
    requires cfg.Valid()
    decreases hi - lo
  {
    if hi <= lo then 0 else AdmittedSum(cfg, s, es, lo, hi - 1) + Admitted(cfg, s, es, hi - 1)
  }

  /** Spans lo to hi - 1 are flushed into one interval counter. */
  predicate SameKey(cfg: Config, lo: int, hi: int)
    requires cfg.Valid()
  {
    forall k :: lo <= k < hi ==> cfg.Key(k) == cfg.Key(lo)
  }

  /** Span k counted something and took its interval's total over the limit: its flush
      blocks the route for the cooldown. */
  ghost predicate Hot(cfg: Config, s: Sys, es: seq<Event>, lo: int, k: int)
    requires cfg.Valid()
  {
    && s.tick <= lo <= k && SameKey(cfg, lo, k + 1)
    && Flushed(cfg, s, es, k) > 0 && FlushedSum(cfg, s, es, lo, k + 1) > cfg.max
  }

  /** The cooldown lasts at least c whole spans. */
  predicate Cools(cfg: Config, c: nat)
    requires cfg.Valid()
  {
    cfg.cooldown >= c * cfg.Span()
  }

  // -------------------------------------------------------------- arithmetic

  lemma {:induction false} Distribute(x: int, y: int, z: int)
    ensures (x + y) * z == x * z + y * z
  {
  }

  lemma {:induction false} MulMonotone(m: int, n: int, x: int)
    requires x >= 0 && m <= n
    ensures m * x <= n * x
  {
    Distribute(m, n - m, x);
    assert (n - m) * x >= 0;
  }

  lemma {:induction false} Scale(x: int, m: int, n: int)
    requires x >= 0 && m <= n
    ensures x * m <= x * n && x * (m + 1) == x * m + x
  {
    assert x * (n - m) >= 0;
  }

  lemma {:induction false} QuotientIs(x: int, d: int, q: int)
    requires d > 0
    ensures x / d == q <==> q * d <= x < q * d + d
  {
    var p := x / d;
    assert x == p * d + x % d;
    if p < q {
      MulMonotone(p + 1, q, d);
      Distribute(p, 1, d);
    } else if q < p {
      MulMonotone(q + 1, p, d);
      Distribute(q, 1, d);
    }
  }

  lemma {:induction false} OneMoreQuotient(x: int, d: int)
    requires d > 0
    ensures (x + d) / d == x / d + 1
  {
    var q := x / d;
    QuotientIs(x, d, q);
    Distribute(q, 1, d);
    QuotientIs(x + d, d, q + 1);
  }

  lemma {:induction false} Later(cfg: Config, i: int, j: int)
    requires cfg.Valid() && i <= j
    ensures cfg.StartOf(i) <= cfg.StartOf(j)
  {
    MulMonotone(i, j, cfg.Span());
  }

  lemma {:induction false} CoversSpans(cfg: Config, c: nat, k: int, j: int)
    requires cfg.Valid() && Cools(cfg, c)
    ensures j <= k + 1 + c ==> cfg.StartOf(j) <= cfg.StartOf(k + 1) + cfg.cooldown
  {
    var d := cfg.Span();
    Distribute(k + 1, c, d);
    if j <= k + 1 + c {
      MulMonotone(j, k + 1 + c, d);
    }
  }

  // ------------------------------------------------ a hot span blocks the route

  lemma {:induction false} BroughtAll(cfg: Config, s: Sys, es: seq<Event>, lo: int, from: int, hi: int)
    requires cfg.Valid() && from <= lo <= hi && SameKey(cfg, lo, hi)
    requires forall k :: from <= k < hi ==> Flushed(cfg, s, es, k) >= 0
    requires forall k :: lo <= k < hi ==> Reached(cfg, s, es, k)
    ensures Brought(cfg, s, es, cfg.Key(lo), from, hi) >= FlushedSum(cfg, s, es, lo, hi)
    decreases hi - from
  {
    if lo < hi {
      BroughtAll(cfg, s, es, lo, from, hi - 1);
    } else {
      BroughtNonNegative(cfg, s, es, cfg.Key(lo), from, hi);
    }
  }

  lemma {:induction false} BroughtNonNegative(cfg: Config, s: Sys, es: seq<Event>, n: int, from: int, hi: int)
    requires cfg.Valid() && forall k :: from <= k < hi ==> Flushed(cfg, s, es, k) >= 0
    ensures Brought(cfg, s, es, n, from, hi) >= 0
    decreases hi - from
  {
    if from < hi {
      BroughtNonNegative(cfg, s, es, n, from, hi - 1);
    }
  }

  /** Every span but the one in hand has reached the store. */
  lemma {:induction false} ObeyingReaches(cfg: Config, s: Sys, es: seq<Event>, calls: Calls, k: int)
    requires cfg.Valid() && Obeys(cfg, s, es, calls) && s.flush.Idle?
    requires var t := Run(cfg, s, es); s.tick <= k < t.tick && !(t.flush.Swapped? && k == t.tick - 1)
    ensures Reached(cfg, s, es, k)
  {
    if es != [] {
      var before := Run(cfg, s, es[..|es| - 1]);
      if k < before.tick && !(before.flush.Swapped? && k == before.tick - 1) {
        ObeyingReaches(cfg, s, es[..|es| - 1], calls, k);
      }
    }
  }

  /** The flush of a hot span finds the counter over the limit. */
  lemma {:induction false} HotFlush(cfg: Config, now: int, es: seq<Event>, calls: Calls, lo: int)
    requires cfg.Valid() && es != [] && es[|es| - 1].Flush?
    requires var s0 := Init(cfg, now); var before := Run(cfg, s0, es[..|es| - 1]);
      Obeys(cfg, s0, es, calls) && before.flush.Swapped? && Hot(cfg, s0, es, lo, before.tick - 1)
    ensures Run(cfg, Init(cfg, now), es).flush.Over?
  {
    var s0, n := Init(cfg, now), |es| - 1;
    var before, t := Run(cfg, s0, es[..n]), Run(cfg, s0, es);
    var k := before.tick - 1;
    BatchInHand(cfg, s0, es[..n], k);
    assert Flushed(cfg, s0, es, k) == Flushed(cfg, s0, es[..n], k);
    assert before.flush.batch > 0;
    HotTotal(cfg, now, es, calls, lo, k);
    assert before.flush.key == cfg.Key(lo);
  }

  lemma {:induction false} HotTotal(cfg: Config, now: int, es: seq<Event>, calls: Calls, lo: int, k: int)
    requires cfg.Valid() && Obeys(cfg, Init(cfg, now), es, calls)
    requires var t := Run(cfg, Init(cfg, now), es); k == t.tick - 1 && !t.flush.Swapped?
    requires Hot(cfg, Init(cfg, now), es, lo, k)
    ensures At(Run(cfg, Init(cfg, now), es).store, cfg.Key(lo)) > cfg.max
  {
    var s0 := Init(cfg, now);
    forall i | s0.tick <= i <= k ensures Flushed(cfg, s0, es, i) >= 0 && Reached(cfg, s0, es, i) {
      SpanAdmission(cfg, now, es, i);
      ObeyingReaches(cfg, s0, es, calls, i);
    }
    BroughtAll(cfg, s0, es, lo, s0.tick, k + 1);
    CountersAddUp(cfg, now, es, cfg.Key(lo));
  }

  ghost predicate NoneWaiting(pending: map<int, Pending>) {
    forall id :: id in pending ==> pending[id].Exceeded?
  }

  /** The first span that a hot span k keeps empty: a call in span k + 1 may get in
      before the block, unless the run is calm. */
  function FirstEmpty(calls: Calls, k: int): int {
    if calls.Calm? then k + 1 else k + 2
  }

  /** What the hot span k leaves in the state: it is still being dealt with, or the route
      is blocked until the cooldown is over; and no call has passed the check. */
  ghost predicate Held(cfg: Config, t: Sys, calls: Calls, c: nat, k: int)
    requires cfg.Valid()
  {
    && ((t.tick == k + 1 && !t.flush.Idle?) ||
        (t.now < cfg.StartOf(k + 1) + cfg.cooldown ==> t.blockedUntil >= cfg.StartOf(k + 1) + cfg.cooldown))
    && (FirstEmpty(calls, k) <= t.tick <= k + c ==> NoneWaiting(t.pending))
  }

  lemma {:induction false} StepHolds(cfg: Config, t: Sys, e: Event, calls: Calls, c: nat, k: int)
    requires cfg.Valid() && Cools(cfg, c) && StateOk(cfg, t) && k < t.tick
    requires Held(cfg, t, calls, c, k) && Fits(cfg, t, e, calls) && !calls.Free?
    requires e.Flush? && t.tick == k + 1 && t.flush.Swapped? ==> Step(cfg, t, e).flush.Over?
    ensures Held(cfg, Step(cfg, t, e), calls, c, k)
    ensures FirstEmpty(calls, k) <= t.tick <= k + c ==> Admitting(cfg, t, e) == 0
  {
    CoversSpans(cfg, c, k, t.tick + 1);
    Later(cfg, k + 1, t.tick);
    Later(cfg, k + 1, t.tick + 1);
  }

  lemma {:induction false} HotBefore(cfg: Config, s: Sys, es: seq<Event>, lo: int, k: int)
    requires cfg.Valid() && es != [] && k < Run(cfg, s, es[..|es| - 1]).tick
    ensures Hot(cfg, s, es, lo, k) <==> Hot(cfg, s, es[..|es| - 1], lo, k)
  {
    BatchesStay(cfg, s, es, lo, k + 1);
  }

  /** A hot span blocks the route: up to span k + c nothing is admitted, from the next
      span on in a calm run, from the one after it in any run of whole calls. */
  lemma {:induction false} HotSpanBlocks(cfg: Config, now: int, es: seq<Event>, calls: Calls, c: nat, lo: int,
                                         k: int, j: int)
    requires cfg.Valid() && Cools(cfg, c) && Obeys(cfg, Init(cfg, now), es, calls) && !calls.Free?
    requires Hot(cfg, Init(cfg, now), es, lo, k) && k < Run(cfg, Init(cfg, now), es).tick
    ensures Held(cfg, Run(cfg, Init(cfg, now), es), calls, c, k)
    ensures FirstEmpty(calls, k) <= j <= k + c ==> Admitted(cfg, Init(cfg, now), es, j) == 0
  {
    var s0 := Init(cfg, now);
    if es != [] {
      var n := |es| - 1;
      var before := Run(cfg, s0, es[..n]);
      InitOk(cfg, now);
      RunOk(cfg, s0, es[..n]);
      if k < before.tick {
        HotBefore(cfg, s0, es, lo, k);
        HotSpanBlocks(cfg, now, es[..n], calls, c, lo, k, j);
        if es[n].Flush? && before.tick == k + 1 && before.flush.Swapped? {
          HotFlush(cfg, now, es, calls, lo);
        }
        StepHolds(cfg, before, es[n], calls, c, k);
      } else {
        SpanAdmission(cfg, now, es[..n], j);
      }
    }
  }

  // ------------------------------------------------- rows of spans that admit

  /** A span that has admitted for itself only once `late` of it had passed, if at all,
      and what that means for the next one: whole calls cannot be let in before the
      route's block ends, nor between the block that their span ends with and its end. */
  ghost predicate Pressed(cfg: Config, t: Sys, late: int)
    requires cfg.Valid()
  {
    var begin, quiet := cfg.StartOf(t.tick), t.pending == map[] && t.count == 0;
    if t.flush.Idle? then
      (t.now >= begin + late && t.blockedUntil >= begin + late + cfg.cooldown)
      || (quiet && t.blockedUntil >= begin + cfg.Span())
    else
      t.now >= begin + late || (quiet && t.blockedUntil >= begin + late)
  }

  lemma {:induction false} PressedStep(cfg: Config, t: Sys, e: Event, late: int)
    requires cfg.Valid() && StateOk(cfg, t) && cfg.cooldown > cfg.Span() && Pressed(cfg, t, late) && late >= 0
    requires e.Flush? && t.flush.Swapped? ==> Step(cfg, t, e).flush.Over?
    requires !(e.Swap? && t.flush.Idle?)
    ensures Pressed(cfg, Step(cfg, t, e), late)
  {
    NextSpan(cfg, t.tick);
  }

  lemma {:induction false} PressedSwap(cfg: Config, t: Sys, late: int)
    requires cfg.Valid() && StateOk(cfg, t) && Pressed(cfg, t, late)
    requires t.flush.Idle? && t.pending == map[] && t.count > 0
    ensures Pressed(cfg, SwapStep(cfg, t), late + cfg.cooldown - cfg.Span())
  {
    NextSpan(cfg, t.tick);
    assert SwapStep(cfg, t).now == cfg.StartOf(t.tick + 1);
    assert t.blockedUntil >= cfg.StartOf(t.tick) + late + cfg.cooldown;
  }

  ghost predicate AllAdmit(cfg: Config, s: Sys, es: seq<Event>, lo: int, hi: int)
    requires cfg.Valid()
  {
    forall k :: lo <= k < hi ==> Admitted(cfg, s, es, k) > 0
  }

  /** What a row of spans that all admit is like: span j takes or has taken the total
      over the limit. */
  ghost predicate InRow(cfg: Config, now: int, es: seq<Event>, lo: int, j: int, m: nat)
    requires cfg.Valid()
  {
    && cfg.cooldown > cfg.Span() && Obeys(cfg, Init(cfg, now), es, Whole)
    && Init(cfg, now).tick <= lo <= j && SameKey(cfg, lo, j + m)
    && AllAdmit(cfg, Init(cfg, now), es, j, j + m)
    && (j < Run(cfg, Init(cfg, now), es).tick ==> FlushedSum(cfg, Init(cfg, now), es, lo, j + 1) > cfg.max)
  }

  lemma {:induction false} AdmittedBefore(cfg: Config, s: Sys, es: seq<Event>, k: int)
    requires cfg.Valid() && es != [] && k < Run(cfg, s, es).tick
    ensures Admitted(cfg, s, es, k) == Admitted(cfg, s, es[..|es| - 1], k)
  {
  }

  /** One event earlier the row was the same, or its last span was just ending. */
  lemma {:induction false} RowBefore(cfg: Config, now: int, es: seq<Event>, lo: int, j: int, m: nat)
    requires cfg.Valid() && InRow(cfg, now, es, lo, j, m) && es != []
    requires j + m <= Run(cfg, Init(cfg, now), es).tick
    ensures InRow(cfg, now, es[..|es| - 1], lo, j, m)
  {
    var s0, n := Init(cfg, now), |es| - 1;
    if j < Run(cfg, s0, es[..n]).tick {
      BatchesStay(cfg, s0, es, lo, j + 1);
    }
    forall k | j <= k < j + m ensures Admitted(cfg, s0, es[..n], k) > 0 {
      AdmittedBefore(cfg, s0, es, k);
    }
  }

  /** The swap of a span that admitted something, in a run of whole calls. */
  lemma {:induction false} SwapAfter(cfg: Config, now: int, es: seq<Event>, k: int)
    requires cfg.Valid() && Obeys(cfg, Init(cfg, now), es, Whole) && es != []
    requires Admitted(cfg, Init(cfg, now), es, k) > 0
    requires Run(cfg, Init(cfg, now), es[..|es| - 1]).tick == k < Run(cfg, Init(cfg, now), es).tick
    ensures var before, t := Run(cfg, Init(cfg, now), es[..|es| - 1]), Run(cfg, Init(cfg, now), es);
      t == SwapStep(cfg, before) && before.flush.Idle? && before.pending == map[] && before.count > 0
  {
    AdmittedBefore(cfg, Init(cfg, now), es, k);
    SpanAdmission(cfg, now, es[..|es| - 1], k);
  }

  /** In the span after a row of m + 1, calls get in late, or not at all: each span of
      the row adds what the cooldown exceeds a span by. */
  lemma {:induction false} RowPresses(cfg: Config, now: int, es: seq<Event>, lo: int, j: int, m: nat)
    requires cfg.Valid() && InRow(cfg, now, es, lo, j, m + 1)
    requires Run(cfg, Init(cfg, now), es).tick == j + m + 1
    ensures Pressed(cfg, Run(cfg, Init(cfg, now), es), m * (cfg.cooldown - cfg.Span()))
  {
    var s0, t, n := Init(cfg, now), Run(cfg, Init(cfg, now), es), |es| - 1;
    assert Admitted(cfg, s0, es, j) > 0;
    if es != [] {
      var before := Run(cfg, s0, es[..n]);
      InitOk(cfg, now);
      RunOk(cfg, s0, es[..n]);
      RowBefore(cfg, now, es, lo, j, m + 1);
      if before.tick == t.tick {
        RowPresses(cfg, now, es[..n], lo, j, m);
        StillPressed(cfg, now, es, lo, j, m);
      } else {
        SwapAfter(cfg, now, es, j + m);
        if m > 0 {
          RowPresses(cfg, now, es[..n], lo, j, m - 1);
        }
        SwapPresses(cfg, before, m);
      }
    }
  }

  lemma {:induction false} SwapPresses(cfg: Config, t: Sys, m: nat)
    requires cfg.Valid() && StateOk(cfg, t) && t.flush.Idle? && t.pending == map[] && t.count > 0
    requires m > 0 ==> Pressed(cfg, t, (m - 1) * (cfg.cooldown - cfg.Span()))
    ensures Pressed(cfg, SwapStep(cfg, t), m * (cfg.cooldown - cfg.Span()))
  {
    if m > 0 {
      PressedSwap(cfg, t, (m - 1) * (cfg.cooldown - cfg.Span()));
      Distribute(m, -1, cfg.cooldown - cfg.Span());
    }
  }

  lemma {:induction false} StillPressed(cfg: Config, now: int, es: seq<Event>, lo: int, j: int, m: nat)
    requires cfg.Valid() && InRow(cfg, now, es, lo, j, m + 1) && es != []
    requires Run(cfg, Init(cfg, now), es[..|es| - 1]).tick == Run(cfg, Init(cfg, now), es).tick == j + m + 1
    requires Pressed(cfg, Run(cfg, Init(cfg, now), es[..|es| - 1]), m * (cfg.cooldown - cfg.Span()))
    ensures Pressed(cfg, Run(cfg, Init(cfg, now), es), m * (cfg.cooldown - cfg.Span()))
  {
    var s0, n := Init(cfg, now), |es| - 1;
    var before := Run(cfg, s0, es[..n]);
    InitOk(cfg, now);
    RunOk(cfg, s0, es[..n]);
    RowIsHot(cfg, now, es, lo, j, m);
    if es[n].Flush? && before.flush.Swapped? {
      HotFlush(cfg, now, es, Whole, lo);
    }
    MulMonotone(0, m, cfg.cooldown - cfg.Span());
    PressedStep(cfg, before, es[n], m * (cfg.cooldown - cfg.Span()));
  }

  lemma {:induction false} RowIsHot(cfg: Config, now: int, es: seq<Event>, lo: int, j: int, m: nat)
    requires cfg.Valid() && InRow(cfg, now, es, lo, j, m + 1) && j + m < Run(cfg, Init(cfg, now), es).tick
    ensures Hot(cfg, Init(cfg, now), es, lo, j + m)
  {
    SpanAdmission(cfg, now, es, j + m);
    FlushedGrows(cfg, now, es, lo, j + 1, j + m + 1);
  }

  /** So a row of m + 2 needs the m-fold excess to fit into a span. */
  lemma {:induction false} RowFits(cfg: Config, now: int, es: seq<Event>, lo: int, j: int, m: nat)
    requires cfg.Valid() && InRow(cfg, now, es, lo, j, m + 2)
    ensures m * (cfg.cooldown - cfg.Span()) < cfg.Span()
  {
    var s0, t, n := Init(cfg, now), Run(cfg, Init(cfg, now), es), |es| - 1;
    InitOk(cfg, now);
    RunOk(cfg, s0, es);
    SpanAdmission(cfg, now, es, j + m + 1);
    if t.tick == j + m + 1 {
      RowPresses(cfg, now, es, lo, j, m);
      NextSpan(cfg, t.tick);
    } else if es != [] {
      RowBefore(cfg, now, es, lo, j, m + 2);
      RowFits(cfg, now, es[..n], lo, j, m);
    }
  }

  // ------------------------------------------------------------ counting spans

  function NonNegative(n: int): nat { if n > 0 then n else 0 }

  /** How many of n spans can admit when up to `row` in a row may, and then c may not. */
  function Rows(n: int, row: nat, c: nat): (r: nat)
    requires row > 0
    ensures r <= NonNegative(n) && (n > 0 ==> r > 0)
    decreases NonNegative(n)
  {
    if n <= row then NonNegative(n) else row + Rows(n - row - c, row, c)
  }

  /** The longest row if calls may come between swap and block: each span after the
      second begins to admit later than the one before. */
  function LongRow(cfg: Config): (row: nat)
    requires cfg.Valid() && cfg.cooldown > cfg.Span()
    ensures row >= 2
  {
    2 + (cfg.Span() - 1) / (cfg.cooldown - cfg.Span())
  }

  /** How many of n spans can admit once the total is over the limit, if the cooldown
      lasts c whole spans. */
  function Slots(cfg: Config, n: int, calls: Calls, c: nat): nat
    requires cfg.Valid()
  {
    match calls
    case Calm => Rows(n, 1, c)
    case Whole => if cfg.cooldown > cfg.Span() then Rows(n, LongRow(cfg), c) else NonNegative(n)
    case Free => NonNegative(n)
  }

  lemma {:induction false} FitsLongRow(cfg: Config, m: nat)
    requires cfg.Valid() && cfg.cooldown > cfg.Span()
    ensures m * (cfg.cooldown - cfg.Span()) < cfg.Span() <==> m + 2 <= LongRow(cfg)
  {
    var d := cfg.cooldown - cfg.Span();
    var q := (cfg.Span() - 1) / d;
    QuotientIs(cfg.Span() - 1, d, q);
    if m > q {
      MulMonotone(q + 1, m, d);
      Distribute(q, 1, d);
    } else {
      MulMonotone(m, q, d);
    }
  }

  lemma {:induction false} RowsGrow(m: int, n: int, row: nat, c: nat)
    requires row > 0 && m <= n
    ensures Rows(m, row, c) <= Rows(n, row, c) <= Rows(m, row, c) + n - m
    decreases NonNegative(n)
  {
    if m > row {
      RowsGrow(m - row - c, n - row - c, row, c);
    }
  }

  /** No row is better than the longest one. */
  lemma {:induction false} RowsStep(n: int, m: nat, row: nat, c: nat)
    requires 0 < m <= row && m <= n
    ensures m + Rows(n - m - c, row, c) <= Rows(n, row, c)
  {
    if n > row {
      RowsGrow(n - row - c, n - m - c, row, c);
    }
  }

  lemma {:induction false} SlotsGrow(cfg: Config, m: int, n: int, calls: Calls, c: nat)
    requires cfg.Valid() && m <= n
    ensures Slots(cfg, m, calls, c) <= Slots(cfg, n, calls, c) <= Slots(cfg, m, calls, c) + n - m
  {
    if calls.Calm? {
      RowsGrow(m, n, 1, c);
    } else if cfg.cooldown > cfg.Span() {
      RowsGrow(m, n, LongRow(cfg), c);
    }
  }

  lemma {:induction false} SlotsStep(cfg: Config, n: int, m: nat, calls: Calls, c: nat, rest: int)
    requires cfg.Valid() && 0 < m <= n && rest == (if m + c < n then n - m - c else 0)
    requires if calls.Calm? then m == 1 else calls.Whole? && cfg.cooldown > cfg.Span() && m <= LongRow(cfg)
    ensures m + Slots(cfg, rest, calls, c) <= Slots(cfg, n, calls, c)
  {
    RowsStep(n, m, if calls.Calm? then 1 else LongRow(cfg), c);
  }

  lemma {:induction false} SinglesAsQuotient(n: nat, c: nat)
    ensures Rows(n - c, 1, c) == n / (c + 1)
    decreases n
  {
    if n < c + 1 {
      QuotientIs(n, c + 1, 0);
    } else {
      SinglesAsQuotient(n - c - 1, c);
      OneMoreQuotient(n - c - 1, c + 1);
    }
  }

  /** In closed form: q whole rows with their rests, and r spans. */
  lemma {:induction false} RowsAsQuotient(q: nat, r: nat, row: nat, c: nat)
    requires 0 < row && r < row + c
    ensures Rows(q * (row + c) + r, row, c) == q * row + if r < row then r else row
    decreases q
  {
    if q > 0 {
      Distribute(q - 1, 1, row + c);
      Distribute(q - 1, 1, row);
      MulMonotone(1, q, row + c);
      RowsAsQuotient(q - 1, r, row, c);
    }
  }

  // --------------------------------------------------------------- the bound

  lemma {:induction false} AdmittedSplit(cfg: Config, s: Sys, es: seq<Event>, lo: int, mid: int, hi: int)
    requires cfg.Valid() && lo <= mid <= hi
    ensures AdmittedSum(cfg, s, es, lo, hi) == AdmittedSum(cfg, s, es, lo, mid) + AdmittedSum(cfg, s, es, mid, hi)
    ensures lo < mid == lo + 1 ==> AdmittedSum(cfg, s, es, lo, mid) == Admitted(cfg, s, es, lo)
    decreases hi - mid
  {
    if mid < hi {
      AdmittedSplit(cfg, s, es, lo, mid, hi - 1);
    }
  }

  lemma {:induction false} NoneAdmitted(cfg: Config, s: Sys, es: seq<Event>, lo: int, hi: int)
    requires cfg.Valid() && forall j :: lo <= j < hi ==> Admitted(cfg, s, es, j) == 0
    ensures AdmittedSum(cfg, s, es, lo, hi) == 0
    decreases hi - lo
  {
    if lo < hi {
      NoneAdmitted(cfg, s, es, lo, hi - 1);
    }
  }

  lemma {:induction false} FlushedGrows(cfg: Config, now: int, es: seq<Event>, lo: int, mid: int, hi: int)
    requires cfg.Valid() && mid <= hi
    ensures FlushedSum(cfg, Init(cfg, now), es, lo, mid) <= FlushedSum(cfg, Init(cfg, now), es, lo, hi)
    decreases hi - mid
  {
    if mid < hi {
      FlushedGrows(cfg, now, es, lo, mid, hi - 1);
      SpanAdmission(cfg, now, es, hi - 1);
    }
  }

  /** Spans already swapped out have admitted at most what they flush. */
  lemma {:induction false} AdmittedWithinFlushed(cfg: Config, now: int, es: seq<Event>, lo: int, hi: int)
    requires cfg.Valid() && hi <= Run(cfg, Init(cfg, now), es).tick
    ensures AdmittedSum(cfg, Init(cfg, now), es, lo, hi) <= FlushedSum(cfg, Init(cfg, now), es, lo, hi)
    decreases hi - lo
  {
    if lo < hi {
      AdmittedWithinFlushed(cfg, now, es, lo, hi - 1);
      SpanAdmission(cfg, now, es, hi - 1);
    }
  }

  /** After a span that admits once the total is over, spans are empty; if it has not
      been swapped out yet, there are none. */
  lemma {:induction false} EmptyAfter(cfg: Config, now: int, es: seq<Event>, calls: Calls, c: nat, lo: int,
                                      j: int, i: int)
    requires cfg.Valid() && Cools(cfg, c) && Obeys(cfg, Init(cfg, now), es, calls) && !calls.Free?
    requires Init(cfg, now).tick <= lo <= j && SameKey(cfg, lo, j + 1)
    requires FlushedSum(cfg, Init(cfg, now), es, lo, j + 1) > cfg.max && Admitted(cfg, Init(cfg, now), es, j) > 0
    requires FirstEmpty(calls, j) <= i <= j + c
    ensures Admitted(cfg, Init(cfg, now), es, i) == 0
  {
    SpanAdmission(cfg, now, es, j);
    if j < Run(cfg, Init(cfg, now), es).tick {
      HotSpanBlocks(cfg, now, es, calls, c, lo, j, i);
    } else {
      SpanAdmission(cfg, now, es, i);
    }
  }

  /** What the tail lemmas assume: from span j on the total is over the limit. */
  ghost predicate OverFrom(cfg: Config, now: int, es: seq<Event>, calls: Calls, c: nat, lo: int, j: int, hi: int)
    requires cfg.Valid()
  {
    && Cools(cfg, c) && Obeys(cfg, Init(cfg, now), es, calls)
    && Init(cfg, now).tick <= lo <= j && SameKey(cfg, lo, hi)
    && FlushedSum(cfg, Init(cfg, now), es, lo, j + 1) > cfg.max
  }

  lemma {:induction false} OverLater(cfg: Config, now: int, es: seq<Event>, calls: Calls, c: nat, lo: int,
                                      j: int, j': int, hi: int)
    requires cfg.Valid() && OverFrom(cfg, now, es, calls, c, lo, j, hi) && j <= j'
    ensures OverFrom(cfg, now, es, calls, c, lo, j', hi)
  {
    FlushedGrows(cfg, now, es, lo, j + 1, j' + 1);
  }

  function Cut(x: int, hi: int): int { if x < hi then x else hi }

  /** The longest row of spans that all admit, from span j on. */
  lemma {:induction false} RowFrom(cfg: Config, s: Sys, es: seq<Event>, j: int, hi: int) returns (m: nat)
    requires cfg.Valid() && j <= hi
    ensures j + m <= hi && AllAdmit(cfg, s, es, j, j + m)
    ensures j + m < hi ==> Admitted(cfg, s, es, j + m) == 0
    decreases hi - j
  {
    m := 0;
    if j < hi && Admitted(cfg, s, es, j) > 0 {
      m := RowFrom(cfg, s, es, j + 1, hi);
      m := m + 1;
    }
  }

  /** In a calm run one span is a row; otherwise the longest row is long enough. */
  lemma {:induction false} RowIsShort(cfg: Config, now: int, es: seq<Event>, c: nat, lo: int, j: int, hi: int, m: nat)
    requires cfg.Valid() && OverFrom(cfg, now, es, Whole, c, lo, j, hi) && cfg.cooldown > cfg.Span()
    requires j + m <= hi && AllAdmit(cfg, Init(cfg, now), es, j, j + m)
    ensures m <= LongRow(cfg)
  {
    if m > 2 {
      RowFits(cfg, now, es, lo, j, m - 2);
      FitsLongRow(cfg, m - 2);
    }
  }

  /** Once the total is over the limit: the longest row, and an empty stretch. */
  lemma {:induction false} RowsTail(cfg: Config, now: int, es: seq<Event>, calls: Calls, c: nat, lo: int,
                                    j: int, hi: int)
    requires cfg.Valid() && j <= hi && OverFrom(cfg, now, es, calls, c, lo, j, hi)
    requires calls.Calm? || (calls.Whole? && cfg.cooldown > cfg.Span())
    ensures AdmittedSum(cfg, Init(cfg, now), es, j, hi) <= cfg.max * Slots(cfg, hi - j, calls, c)
    decreases hi - j
  {
    if j < hi {
      var m, next := RowAndRest(cfg, now, es, calls, c, lo, j, hi);
      OverLater(cfg, now, es, calls, c, lo, j, next, hi);
      RowsTail(cfg, now, es, calls, c, lo, next, hi);
      var rest := Slots(cfg, hi - next, calls, c);
      AddUp(cfg.max, m, rest);
      Scale(cfg.max, m + rest, Slots(cfg, hi - j, calls, c));
    }
  }

  lemma {:induction false} AddUp(x: int, m: int, n: int)
    ensures x * (m + n) == x * m + x * n
  {
  }

  /** From span j on: m spans that may admit, then none up to `next`. */
  lemma {:induction false} RowAndRest(cfg: Config, now: int, es: seq<Event>, calls: Calls, c: nat, lo: int,
                                      j: int, hi: int)
      returns (m: nat, next: int)
    requires cfg.Valid() && j < hi && OverFrom(cfg, now, es, calls, c, lo, j, hi)
    requires calls.Calm? || (calls.Whole? && cfg.cooldown > cfg.Span())
    ensures j < next <= hi && m + Slots(cfg, hi - next, calls, c) <= Slots(cfg, hi - j, calls, c)
    ensures AdmittedSum(cfg, Init(cfg, now), es, j, hi) <=
            cfg.max * m + AdmittedSum(cfg, Init(cfg, now), es, next, hi)
  {
    m := RowFrom(cfg, Init(cfg, now), es, j, hi);
    if m == 0 {
      next := j + 1;
      SlotsGrow(cfg, hi - next, hi - j, calls, c);
    } else {
      if calls.Calm? {
        m := 1;
      } else {
        RowIsShort(cfg, now, es, c, lo, j, hi, m);
      }
      next := Cut(j + m + c, hi);
      NoneInRest(cfg, now, es, calls, c, lo, j, hi, m, next);
      SlotsStep(cfg, hi - j, m, calls, c, hi - next);
    }
    RowSum(cfg, now, es, j, j + m, next, hi);
  }

  lemma {:induction false} RowSum(cfg: Config, now: int, es: seq<Event>, j: int, mid: int, next: int, hi: int)
    requires cfg.Valid() && j <= mid <= next <= hi
    requires forall i :: mid <= i < next ==> Admitted(cfg, Init(cfg, now), es, i) == 0
    ensures AdmittedSum(cfg, Init(cfg, now), es, j, hi) <=
            cfg.max * (mid - j) + AdmittedSum(cfg, Init(cfg, now), es, next, hi)
  {
    SpanBySpan(cfg, now, es, j, mid);
    AdmittedSplit(cfg, Init(cfg, now), es, j, mid, hi);
    NoneAdmitted(cfg, Init(cfg, now), es, mid, next);
    AdmittedSplit(cfg, Init(cfg, now), es, mid, next, hi);
  }

  lemma {:induction false} NoneInRest(cfg: Config, now: int, es: seq<Event>, calls: Calls, c: nat, lo: int,
                                      j: int, hi: int,
                                      m: nat, next: int)
    requires cfg.Valid() && OverFrom(cfg, now, es, calls, c, lo, j, hi) && !calls.Free?
    requires 0 < m && next == Cut(j + m + c, hi) && j + m <= hi && AllAdmit(cfg, Init(cfg, now), es, j, j + m)
    requires calls.Calm? || (j + m < hi ==> Admitted(cfg, Init(cfg, now), es, j + m) == 0)
    ensures forall i :: j + m <= i < next ==> Admitted(cfg, Init(cfg, now), es, i) == 0
  {
    OverLater(cfg, now, es, calls, c, lo, j, j + m - 1, hi);
    forall i | j + m <= i < next ensures Admitted(cfg, Init(cfg, now), es, i) == 0 {
      if i > j + m || calls.Calm? {
        EmptyAfter(cfg, now, es, calls, c, lo, j + m - 1, i);
      }
    }
  }

  /** Once the total is over the limit: rows in a calm run, longer ones with whole calls
      and a cooldown of more than a span, otherwise every span. */
  lemma {:induction false} TailBound(cfg: Config, now: int, es: seq<Event>, calls: Calls, c: nat, lo: int,
                                     j: int, hi: int)
    requires cfg.Valid() && j <= hi && OverFrom(cfg, now, es, calls, c, lo, j, hi)
    ensures AdmittedSum(cfg, Init(cfg, now), es, j, hi) <= cfg.max * Slots(cfg, hi - j, calls, c)
  {
    if calls.Calm? || (calls.Whole? && cfg.cooldown > cfg.Span()) {
      RowsTail(cfg, now, es, calls, c, lo, j, hi);
    } else {
      SpanBySpan(cfg, now, es, j, hi);
    }
  }

  lemma {:induction false} SpanBySpan(cfg: Config, now: int, es: seq<Event>, lo: int, hi: int)
    requires cfg.Valid() && lo <= hi
    ensures AdmittedSum(cfg, Init(cfg, now), es, lo, hi) <= cfg.max * (hi - lo)
    decreases hi - lo
  {
    if lo < hi {
      SpanBySpan(cfg, now, es, lo, hi - 1);
      SpanAdmission(cfg, now, es, hi - 1);
      Scale(cfg.max, hi - lo - 1, hi - lo);
    }
  }

  /** The first span of [lo, hi) whose batch takes the total over the limit. */
  lemma {:induction false} FirstOver(cfg: Config, now: int, es: seq<Event>, lo: int, hi: int) returns (j: int)
    requires cfg.Valid() && lo <= hi && FlushedSum(cfg, Init(cfg, now), es, lo, hi) > cfg.max
    ensures lo <= j < hi && j < Run(cfg, Init(cfg, now), es).tick
    ensures FlushedSum(cfg, Init(cfg, now), es, lo, j) <= cfg.max < FlushedSum(cfg, Init(cfg, now), es, lo, j + 1)
    decreases hi - lo
  {
    if FlushedSum(cfg, Init(cfg, now), es, lo, hi - 1) > cfg.max {
      j := FirstOver(cfg, now, es, lo, hi - 1);
    } else {
      j := hi - 1;
      SpanAdmission(cfg, now, es, j);
    }
  }

  lemma {:induction false} NeverOver(cfg: Config, now: int, es: seq<Event>, lo: int, hi: int)
    requires cfg.Valid() && lo < hi && FlushedSum(cfg, Init(cfg, now), es, lo, hi) <= cfg.max
    ensures AdmittedSum(cfg, Init(cfg, now), es, lo, hi) <= cfg.max * if hi == lo + 1 then 1 else 2
  {
    var s0 := Init(cfg, now);
    var tick := Run(cfg, s0, es).tick;
    var mid := if tick < lo then lo else Cut(tick, hi);
    if mid <= tick {
      AdmittedWithinFlushed(cfg, now, es, lo, mid);
    }
    FlushedGrows(cfg, now, es, lo, mid, hi);
    AdmittedSplit(cfg, s0, es, lo, mid, hi);
    SpanAdmission(cfg, now, es, lo);
    AdmittedSplit(cfg, s0, es, lo, lo + 1, hi);
    if mid < hi {
      AdmittedSplit(cfg, s0, es, mid, mid + 1, hi);
      SpanAdmission(cfg, now, es, mid);
      forall i | mid + 1 <= i < hi ensures Admitted(cfg, s0, es, i) == 0 {
        SpanAdmission(cfg, now, es, i);
      }
      NoneAdmitted(cfg, s0, es, mid + 1, hi);
    }
  }

  /** The bound.  Whatever calls are made, in the n spans flushed into one interval
      counter a node admits for a route at most one span's worth, and then as many as
      fit into the other n - 1 spans between the blocks. */
  lemma {:induction false} IntervalAdmission(cfg: Config, now: int, es: seq<Event>, calls: Calls, c: nat,
                                             lo: int, hi: int)
    requires cfg.Valid() && Cools(cfg, c) && Obeys(cfg, Init(cfg, now), es, calls)
    requires Init(cfg, now).tick <= lo < hi && SameKey(cfg, lo, hi)
    ensures AdmittedSum(cfg, Init(cfg, now), es, lo, hi) <= cfg.max * (1 + Slots(cfg, hi - lo - 1, calls, c))
  {
    var s0, rest := Init(cfg, now), Slots(cfg, hi - lo - 1, calls, c);
    if FlushedSum(cfg, s0, es, lo, hi) <= cfg.max {
      NeverOver(cfg, now, es, lo, hi);
      assert hi > lo + 1 ==> rest >= 1;
      Scale(cfg.max, if hi == lo + 1 then 1 else 2, 1 + rest);
    } else {
      var j := FirstOver(cfg, now, es, lo, hi);
      AdmittedWithinFlushed(cfg, now, es, lo, j);
      AdmittedSplit(cfg, s0, es, lo, j, hi);
      TailBound(cfg, now, es, calls, c, lo, j, hi);
      var tail := Slots(cfg, hi - j, calls, c);
      if j == lo {
        SlotsGrow(cfg, hi - lo - 1, hi - lo, calls, c);
        Scale(cfg.max, tail, 1 + rest);
      } else {
        SlotsGrow(cfg, hi - j, hi - lo - 1, calls, c);
        Scale(cfg.max, tail, tail);
        Scale(cfg.max, 1 + tail, 1 + rest);
      }
    }
  }

  // ---------------------------------------------------------- whole intervals

  /** The spans divide the interval evenly. */
  predicate Even(cfg: Config)
    requires cfg.Valid()
  {
    cfg.interval == cfg.spans * cfg.Span()
  }

  /** The first of the spans that are flushed into counter n. */
  function First(cfg: Config, n: int): int { n * cfg.spans - 1 }

  function AdmittedIn(cfg: Config, s: Sys, es: seq<Event>, n: int): nat
    requires cfg.Valid()
  {
    AdmittedSum(cfg, s, es, First(cfg, n), First(cfg, n) + cfg.spans)
  }

  /** When the spans divide the interval evenly, counter n takes exactly the spans
      from n * spans - 1 to n * spans + spans - 2. */
  lemma {:induction false} SpansOfInterval(cfg: Config, n: int, k: int)
    requires cfg.Valid() && Even(cfg)
    ensures cfg.Key(k) == n <==> First(cfg, n) <= k < First(cfg, n) + cfg.spans
  {
    CommonFactor(k + 1, cfg.spans, cfg.Span());
    QuotientIs(k + 1, cfg.spans, n);
  }

  lemma {:induction false} CommonFactor(i: int, spans: int, d: int)
    requires spans > 0 && d > 0
    ensures spans * d > 0 && i * d / (spans * d) == i / spans
  {
    var q := i / spans;
    QuotientIs(i, spans, q);
    MulMonotone(1, spans, d);
    MulMonotone(q * spans, i, d);
    MulMonotone(i + 1, q * spans + spans, d);
    Distribute(i, 1, d);
    Distribute(q * spans, spans, d);
    Associate(q, spans, d);
    QuotientIs(i * d, spans * d, q);
  }

  lemma {:induction false} Associate(x: int, y: int, z: int)
    ensures (x * y) * z == x * (y * z)
  {
  }

  /** The bound for interval n, all of whose spans the node has lived through. */
  lemma {:induction false} WholeIntervalAdmission(cfg: Config, now: int, es: seq<Event>, calls: Calls, c: nat, n: int)
    requires cfg.Valid() && Even(cfg) && Cools(cfg, c)
    requires Obeys(cfg, Init(cfg, now), es, calls) && Init(cfg, now).tick <= First(cfg, n)
    ensures AdmittedIn(cfg, Init(cfg, now), es, n) <= cfg.max * (1 + Slots(cfg, cfg.spans - 1, calls, c))
  {
    var lo, hi := First(cfg, n), First(cfg, n) + cfg.spans;
    forall k | lo <= k < hi ensures cfg.Key(k) == cfg.Key(lo) {
      SpansOfInterval(cfg, n, k);
      SpansOfInterval(cfg, n, lo);
    }
    IntervalAdmission(cfg, now, es, calls, c, lo, hi);
  }

  /** The bound of a calm run in closed form. */
  lemma {:induction false} CalmBound(cfg: Config, n: int, c: nat)
    requires cfg.Valid() && n >= 2
    ensures 1 + Slots(cfg, n - 1, Calm, c) == 2 + (n - 2) / (c + 1)
  {
    SinglesAsQuotient(n - 2, c);
  }
}
