/** The interval bounds are reached: for every configuration whose spans divide the
    interval, a run that admits exactly the bound.  So the bounds say when a node keeps
    MaxRequests per interval, and which calls may not be allowed for that. */
module IntervalRuns {
  import opened Throttle
  import opened IntervalBound

  // ------------------------------------------------------------ building runs

  /** A run so far: it obeys, is in state t, and has admitted w in spans lo to hi - 1. */
  ghost predicate Built(cfg: Config, s0: Sys, es: seq<Event>, calls: Calls, lo: int, hi: int, t: Sys, w: int)
    requires cfg.Valid()
  {
    Obeys(cfg, s0, es, calls) && Run(cfg, s0, es) == t && AdmittedSum(cfg, s0, es, lo, hi) == w
  }

  lemma {:induction false} OneMore(cfg: Config, s0: Sys, es: seq<Event>, calls: Calls, lo: int, hi: int,
                                   t: Sys, w: int, e: Event)
    requires cfg.Valid() && Built(cfg, s0, es, calls, lo, hi, t, w) && Fits(cfg, t, e, calls)
    ensures Built(cfg, s0, es + [e], calls, lo, hi, Step(cfg, t, e),
                  w + if lo <= t.tick < hi then Admitting(cfg, t, e) else 0)
  {
    assert (es + [e])[..|es|] == es;
    SumStep(cfg, s0, es, e, lo, hi);
  }

  lemma {:induction false} SumStep(cfg: Config, s0: Sys, es: seq<Event>, e: Event, lo: int, hi: int)
    requires cfg.Valid()
    ensures var t := Run(cfg, s0, es);
      AdmittedSum(cfg, s0, es + [e], lo, hi) ==
        AdmittedSum(cfg, s0, es, lo, hi) + if lo <= t.tick < hi then Admitting(cfg, t, e) else 0
    decreases hi - lo
  {
    if lo < hi {
      assert (es + [e])[..|es|] == es;
      SumStep(cfg, s0, es, e, lo, hi - 1);
    }
  }

  lemma {:induction false} PassAndCount(cfg: Config, t: Sys)
    requires cfg.Valid() && t.pending == map[] && t.count == 0 && t.blockedUntil <= t.now
    ensures var passed := Step(cfg, t, Check(0, cfg.max, 1.0));
      && Admitting(cfg, t, Check(0, cfg.max, 1.0)) == 0 && passed.tick == t.tick
      && Step(cfg, passed, Add(0)) == t.(count := cfg.max) && Admitting(cfg, passed, Add(0)) == cfg.max
  {
    assert cfg.Threshold(1.0) == cfg.max;
    assert t.pending[0 := Passed(cfg.max, cfg.max)] - {0} == map[];
  }

  /** One call for the whole limit, made and admitted in one go. */
  lemma {:induction false} FullCall(cfg: Config, s0: Sys, es: seq<Event>, calls: Calls, lo: int, hi: int,
                                    t: Sys, w: int)
      returns (es': seq<Event>)
    requires cfg.Valid() && Built(cfg, s0, es, calls, lo, hi, t, w) && lo <= t.tick < hi
    requires t.pending == map[] && t.count == 0 && t.blockedUntil <= t.now && (calls.Calm? ==> t.flush.Idle?)
    ensures Built(cfg, s0, es', calls, lo, hi, t.(count := cfg.max), w + cfg.max)
  {
    var check := Check(0, cfg.max, 1.0);
    PassAndCount(cfg, t);
    OneMore(cfg, s0, es, calls, lo, hi, t, w, check);
    OneMore(cfg, s0, es + [check], calls, lo, hi, Step(cfg, t, check), w, Add(0));
    es' := es + [check] + [Add(0)];
  }

  lemma {:induction false} AdvanceTo(cfg: Config, t: Sys, time: int)
    requires cfg.Valid() && t.now <= time < cfg.StartOf(t.tick + 1)
    ensures Step(cfg, t, Advance(time)) == t.(now := time) && Admitting(cfg, t, Advance(time)) == 0
  {
  }

  lemma {:induction false} WaitUntil(cfg: Config, s0: Sys, es: seq<Event>, calls: Calls, lo: int, hi: int,
                                     t: Sys, w: int)
      returns (es': seq<Event>, t': Sys)
    requires cfg.Valid() && Built(cfg, s0, es, calls, lo, hi, t, w) && Timely(cfg, t.tick, t.now)
    requires t.blockedUntil < cfg.StartOf(t.tick + 1)
    ensures Built(cfg, s0, es', calls, lo, hi, t', w)
    ensures t' == t.(now := if t.blockedUntil > t.now then t.blockedUntil else t.now)
    ensures Timely(cfg, t'.tick, t'.now)
  {
    var time := if t.blockedUntil > t.now then t.blockedUntil else t.now;
    AdvanceTo(cfg, t, time);
    OneMore(cfg, s0, es, calls, lo, hi, t, w, Advance(time));
    es', t' := es + [Advance(time)], t.(now := time);
  }

  lemma {:induction false} EndSpan(cfg: Config, s0: Sys, es: seq<Event>, calls: Calls, lo: int, hi: int, t: Sys, w: int)
      returns (es': seq<Event>)
    requires cfg.Valid() && Built(cfg, s0, es, calls, lo, hi, t, w) && (calls.Free? || t.pending == map[])
    ensures Built(cfg, s0, es', calls, lo, hi, SpanEnd(cfg, t, true), w)
  {
    OneMore(cfg, s0, es, calls, lo, hi, t, w, Swap);
    es' := FinishSpan(cfg, s0, es + [Swap], calls, lo, hi, Step(cfg, t, Swap), w);
  }

  lemma {:induction false} FinishSpan(cfg: Config, s0: Sys, es: seq<Event>, calls: Calls, lo: int, hi: int,
                                      t: Sys, w: int)
      returns (es': seq<Event>)
    requires cfg.Valid() && Built(cfg, s0, es, calls, lo, hi, t, w)
    ensures Built(cfg, s0, es', calls, lo, hi, Step(cfg, Step(cfg, Step(cfg, t, Clean), Flush(true)), BlockOver), w)
  {
    var a := Step(cfg, t, Clean);
    var b := Step(cfg, a, Flush(true));
    OneMore(cfg, s0, es, calls, lo, hi, t, w, Clean);
    OneMore(cfg, s0, es + [Clean], calls, lo, hi, a, w, Flush(true));
    OneMore(cfg, s0, es + [Clean] + [Flush(true)], calls, lo, hi, b, w, BlockOver);
    es' := es + [Clean] + [Flush(true)] + [BlockOver];
  }

  // ------------------------------------------------------------ what states do

  /** Between two spans' calls, not before time zero. */
  ghost predicate AtRest(cfg: Config, t: Sys)
    requires cfg.Valid()
  {
    Timely(cfg, t.tick, t.now) && t.now >= 0 && t.pending == map[] && t.flush.Idle?
  }

  /** A route that can admit in the running span, and is over the limit if it does. */
  ghost predicate Ready(cfg: Config, t: Sys, key: int)
    requires cfg.Valid()
  {
    AtRest(cfg, t) && t.count == 0 && t.blockedUntil < cfg.StartOf(t.tick + 1) && At(t.store, key) >= cfg.max
  }

  lemma {:induction false} AfterSpanEnd(cfg: Config, t: Sys, key: int)
    requires cfg.Valid() && AtRest(cfg, t) && cfg.Key(t.tick) == key && t.count >= 0
    ensures var u := SpanEnd(cfg, t, true);
      && AtRest(cfg, u) && u.tick == t.tick + 1 && u.now == cfg.StartOf(u.tick) && u.count == 0
      && At(u.store, key) == At(t.store, key) + t.count
      && (if t.count > 0 && At(u.store, key) > cfg.max then u.blockedUntil == u.now + cfg.cooldown
          else u.blockedUntil == t.blockedUntil || u.blockedUntil == 0)
  {
    NextSpan(cfg, t.tick + 1);
  }

  /** r spans in which nothing happens. */
  lemma {:induction false} SkipSpans(cfg: Config, s0: Sys, es: seq<Event>, calls: Calls, lo: int, hi: int,
                                     t: Sys, w: int, key: int, r: nat)
      returns (es': seq<Event>, t': Sys)
    requires cfg.Valid() && Built(cfg, s0, es, calls, lo, hi, t, w) && AtRest(cfg, t) && t.count == 0
    requires forall k :: t.tick <= k < t.tick + r ==> cfg.Key(k) == key
    ensures Built(cfg, s0, es', calls, lo, hi, t', w) && AtRest(cfg, t') && t'.count == 0 && t'.tick == t.tick + r
    ensures At(t'.store, key) == At(t.store, key)
    ensures t'.blockedUntil == t.blockedUntil || t'.blockedUntil == 0
    decreases r
  {
    es', t' := es, t;
    if r > 0 {
      AfterSpanEnd(cfg, t, key);
      es' := EndSpan(cfg, s0, es, calls, lo, hi, t, w);
      es', t' := SkipSpans(cfg, s0, es', calls, lo, hi, SpanEnd(cfg, t, true), w, key, r - 1);
    }
  }

  /** c is the number of whole spans in the cooldown. */
  ghost predicate Exactly(cfg: Config, c: nat)
    requires cfg.Valid()
  {
    c * cfg.Span() <= cfg.cooldown < (c + 1) * cfg.Span()
  }

  /** From the block at the start of span k to span k + c, in which it ends. */
  lemma {:induction false} WaitOut(cfg: Config, s0: Sys, es: seq<Event>, calls: Calls, lo: int, hi: int,
                                   t: Sys, w: int, key: int, c: nat)
      returns (es': seq<Event>, t': Sys)
    requires cfg.Valid() && Built(cfg, s0, es, calls, lo, hi, t, w) && AtRest(cfg, t) && t.count == 0
    requires Exactly(cfg, c) && t.blockedUntil == cfg.StartOf(t.tick) + cfg.cooldown && At(t.store, key) >= cfg.max
    requires forall k :: t.tick <= k < t.tick + c ==> cfg.Key(k) == key
    ensures Built(cfg, s0, es', calls, lo, hi, t', w) && Ready(cfg, t', key) && t'.tick == t.tick + c
  {
    es', t' := SkipSpans(cfg, s0, es, calls, lo, hi, t, w, key, c);
    Distribute(t.tick, c + 1, cfg.Span());
  }

  // ------------------------------------------------------- rows that are reached

  /** The whole limit in a span that was ready. */
  lemma {:induction false} UseSpan(cfg: Config, s0: Sys, es: seq<Event>, calls: Calls, lo: int, hi: int,
                                   t: Sys, w: int, key: int)
      returns (es': seq<Event>, u: Sys)
    requires cfg.Valid() && Built(cfg, s0, es, calls, lo, hi, t, w) && Ready(cfg, t, key) && lo <= t.tick < hi
    ensures Built(cfg, s0, es', calls, lo, hi, u, w + cfg.max)
    ensures Used(cfg, u, key, 0) && u.tick == t.tick
  {
    es', u := WaitUntil(cfg, s0, es, calls, lo, hi, t, w);
    es' := FullCall(cfg, s0, es', calls, lo, hi, u, w);
    u := u.(count := cfg.max);
  }

  /** What the cooldown exceeds a span by, if it does. */
  function Excess(cfg: Config): nat
    requires cfg.Valid()
  {
    NonNegative(cfg.cooldown - cfg.Span())
  }

  /** The running span has admitted its limit, and the route is free again when `late`
      of the next one has passed. */
  ghost predicate Used(cfg: Config, t: Sys, key: int, late: nat)
    requires cfg.Valid()
  {
    && AtRest(cfg, t) && t.count == cfg.max && At(t.store, key) >= cfg.max
    && t.blockedUntil <= cfg.StartOf(t.tick + 1) + late
  }

  /** The batch of a used span has been swapped out, and is not flushed. */
  ghost predicate InWindow(cfg: Config, t: Sys, key: int)
    requires cfg.Valid()
  {
    && Timely(cfg, t.tick, t.now) && t.now >= 0 && t.flush == Swapped(cfg.max, key)
    && t.count == 0 && t.pending == map[] && At(t.store, key) >= cfg.max
  }

  lemma {:induction false} AfterSwap(cfg: Config, t: Sys, key: int)
    requires cfg.Valid() && AtRest(cfg, t) && t.count == cfg.max && At(t.store, key) >= cfg.max
    requires cfg.Key(t.tick) == key
    ensures Step(cfg, t, Swap) == SwapStep(cfg, t) && InWindow(cfg, SwapStep(cfg, t), key)
  {
    NextSpan(cfg, t.tick + 1);
  }

  /** The flush of a batch that takes the counter over the limit. */
  lemma {:induction false} AfterFlush(cfg: Config, t: Sys, key: int)
    requires cfg.Valid() && t.flush == Swapped(cfg.max, key) && At(t.store, key) >= cfg.max > 0
    ensures var u := Step(cfg, Step(cfg, Step(cfg, t, Clean), Flush(true)), BlockOver);
      && u == t.(blockedUntil := t.now + cfg.cooldown, store := u.store, flush := Idle)
      && At(u.store, key) >= cfg.max
  {
  }

  /** In the window before the block, once the last one is over: a call for the limit. */
  lemma {:induction false} WindowCall(cfg: Config, s0: Sys, es: seq<Event>, lo: int, hi: int, t: Sys, w: int, key: int)
      returns (es': seq<Event>, u: Sys)
    requires cfg.Valid() && Built(cfg, s0, es, Whole, lo, hi, t, w) && InWindow(cfg, t, key)
    requires cfg.max > 0 && lo <= t.tick < hi && t.blockedUntil < cfg.StartOf(t.tick + 1)
    ensures Built(cfg, s0, es', Whole, lo, hi, u, w + cfg.max)
    ensures AtRest(cfg, u) && u.tick == t.tick && u.count == cfg.max && At(u.store, key) >= cfg.max
    ensures u.blockedUntil == cfg.cooldown + if t.blockedUntil > t.now then t.blockedUntil else t.now
  {
    es', u := WaitUntil(cfg, s0, es, Whole, lo, hi, t, w);
    es' := FullCall(cfg, s0, es', Whole, lo, hi, u, w);
    u := u.(count := cfg.max);
    es' := FinishSpan(cfg, s0, es', Whole, lo, hi, u, w + cfg.max);
    AfterFlush(cfg, u, key);
    u := Step(cfg, Step(cfg, Step(cfg, u, Clean), Flush(true)), BlockOver);
  }

  /** The span after a used one, as long as it is free before it ends. */
  lemma {:induction false} UseNext(cfg: Config, s0: Sys, es: seq<Event>, lo: int, hi: int, t: Sys, w: int,
                                   key: int, late: nat)
      returns (es': seq<Event>, u: Sys)
    requires cfg.Valid() && Built(cfg, s0, es, Whole, lo, hi, t, w) && Used(cfg, t, key, late)
    requires cfg.max > 0 && lo <= t.tick && t.tick + 1 < hi && cfg.Key(t.tick) == key && late < cfg.Span()
    ensures Built(cfg, s0, es', Whole, lo, hi, u, w + cfg.max) && u.tick == t.tick + 1
    ensures Used(cfg, u, key, late + Excess(cfg))
  {
    AfterSwap(cfg, t, key);
    OneMore(cfg, s0, es, Whole, lo, hi, t, w, Swap);
    NextSpan(cfg, t.tick + 1);
    es', u := WindowCall(cfg, s0, es + [Swap], lo, hi, SwapStep(cfg, t), w, key);
    assert u.blockedUntil <= cfg.StartOf(t.tick + 1) + late + cfg.cooldown;
  }

  /** As many more spans as the row has left. */
  lemma {:induction false} UseRow(cfg: Config, s0: Sys, es: seq<Event>, calls: Calls, lo: int, hi: int, t: Sys, w: int,
                                  key: int, late: nat, m: nat) returns (es': seq<Event>, u: Sys)
    requires cfg.Valid() && Built(cfg, s0, es, calls, lo, hi, t, w) && Used(cfg, t, key, late)
    requires cfg.max > 0 && lo <= t.tick && t.tick + m < hi && forall k :: t.tick <= k < hi ==> cfg.Key(k) == key
    requires m > 0 ==> calls.Whole? && late + (m - 1) * Excess(cfg) < cfg.Span()
    ensures Built(cfg, s0, es', calls, lo, hi, u, w + cfg.max * m) && u.tick == t.tick + m
    ensures AtRest(cfg, u) && u.count == cfg.max && At(u.store, key) >= cfg.max
    decreases m
  {
    es', u := es, t;
    if m > 0 {
      MulMonotone(0, m - 1, Excess(cfg));
      Distribute(m - 1, -1, Excess(cfg));
      es', u := UseNext(cfg, s0, es, lo, hi, t, w, key, late);
      Scale(cfg.max, m - 1, m - 1);
      es', u := UseRow(cfg, s0, es', calls, lo, hi, u, w + cfg.max, key, late + Excess(cfg), m - 1);
    }
  }

  /** A row of that length is possible. */
  ghost predicate RowOk(cfg: Config, calls: Calls, row: nat)
    requires cfg.Valid()
  {
    row == 1 || (row > 1 && calls.Whole? && (row - 2) * Excess(cfg) < cfg.Span())
  }

  /** A row from a span that is ready. */
  lemma {:induction false} OneRow(cfg: Config, s0: Sys, es: seq<Event>, calls: Calls, lo: int, hi: int, t: Sys,
                                  w: int, key: int,
                                  row: nat) returns (es': seq<Event>, u: Sys)
    requires cfg.Valid() && Built(cfg, s0, es, calls, lo, hi, t, w) && Ready(cfg, t, key)
    requires cfg.max > 0 && lo <= t.tick && t.tick + row <= hi && forall k :: t.tick <= k < hi ==> cfg.Key(k) == key
    requires RowOk(cfg, calls, row)
    ensures Built(cfg, s0, es', calls, lo, hi, u, w + cfg.max * row) && u.tick == t.tick + row - 1
    ensures AtRest(cfg, u) && u.count == cfg.max && At(u.store, key) >= cfg.max
  {
    es', u := UseSpan(cfg, s0, es, calls, lo, hi, t, w, key);
    Scale(cfg.max, row - 1, row - 1);
    es', u := UseRow(cfg, s0, es', calls, lo, hi, u, w + cfg.max, key, 0, row - 1);
  }

  /** The span after a row ends it, and its block is waited out. */
  lemma {:induction false} Rest(cfg: Config, s0: Sys, es: seq<Event>, calls: Calls, lo: int, hi: int, t: Sys,
                                w: int, key: int, c: nat)
      returns (es': seq<Event>, u: Sys)
    requires cfg.Valid() && Built(cfg, s0, es, calls, lo, hi, t, w) && AtRest(cfg, t)
    requires t.count == cfg.max > 0 && At(t.store, key) >= cfg.max && Exactly(cfg, c)
    requires forall k :: t.tick <= k < t.tick + c + 1 ==> cfg.Key(k) == key
    ensures Built(cfg, s0, es', calls, lo, hi, u, w) && Ready(cfg, u, key) && u.tick == t.tick + c + 1
  {
    es' := EndSpan(cfg, s0, es, calls, lo, hi, t, w);
    AfterSpanEnd(cfg, t, key);
    es', u := WaitOut(cfg, s0, es', calls, lo, hi, SpanEnd(cfg, t, true), w, key, c);
  }

  /** Row after row, each with its rest. */
  lemma {:induction false} RowsFrom(cfg: Config, s0: Sys, es: seq<Event>, calls: Calls, lo: int, hi: int,
                                    t: Sys, w: int, key: int,
                                    row: nat, c: nat) returns (es': seq<Event>)
    requires cfg.Valid() && Built(cfg, s0, es, calls, lo, hi, t, w) && Ready(cfg, t, key)
    requires cfg.max > 0 && lo <= t.tick < hi && forall k :: t.tick <= k < hi ==> cfg.Key(k) == key
    requires Exactly(cfg, c) && RowOk(cfg, calls, row)
    ensures Obeys(cfg, s0, es', calls) && AdmittedSum(cfg, s0, es', lo, hi) == w + cfg.max * Rows(hi - t.tick, row, c)
    decreases hi - t.tick
  {
    var n, u := hi - t.tick, t;
    if n <= row {
      ShorterRow(cfg, calls, n, row);
      es', u := OneRow(cfg, s0, es, calls, lo, hi, t, w, key, n);
    } else {
      es', u := OneRow(cfg, s0, es, calls, lo, hi, t, w, key, row);
      RowFirst(cfg.max, n, row, c);
      if row + c < n {
        es', u := Rest(cfg, s0, es', calls, lo, hi, u, w + cfg.max * row, key, c);
        es' := RowsFrom(cfg, s0, es', calls, lo, hi, u, w + cfg.max * row, key, row, c);
      }
    }
  }

  lemma {:induction false} RowFirst(x: int, n: int, row: nat, c: nat)
    requires 0 < row < n
    ensures x * Rows(n, row, c) == x * row + x * Rows(n - row - c, row, c)
    ensures n <= row + c ==> x * Rows(n - row - c, row, c) == 0
  {
    AddUp(x, row, Rows(n - row - c, row, c));
  }

  lemma {:induction false} ShorterRow(cfg: Config, calls: Calls, m: nat, row: nat)
    requires cfg.Valid() && RowOk(cfg, calls, row) && 0 < m <= row
    ensures RowOk(cfg, calls, m)
  {
    MulMonotone(m - 2, row - 2, Excess(cfg));
  }

  // -------------------------------------------- runs with calls across the ends

  /** Calls 0 to m - 1 have passed the check. */
  ghost predicate Waiting(cfg: Config, t: Sys, from: nat, m: nat)
    requires cfg.Valid()
  {
    forall i :: from <= i < m ==> i in t.pending && t.pending[i] == Passed(cfg.max, cfg.max)
  }

  lemma {:induction false} PassAll(cfg: Config, s0: Sys, lo: int, hi: int, m: nat) returns (es: seq<Event>, t: Sys)
    requires cfg.Valid() && s0.pending == map[] && s0.blockedUntil <= s0.now
    ensures Built(cfg, s0, es, Free, lo, hi, t, 0) && t == s0.(pending := t.pending) && Waiting(cfg, t, 0, m)
    ensures forall id :: id in t.pending ==> 0 <= id < m
  {
    if m == 0 {
      es, t := [], s0;
      NothingYet(cfg, s0, lo, hi);
    } else {
      es, t := PassAll(cfg, s0, lo, hi, m - 1);
      var check := Check(m - 1, cfg.max, 1.0);
      assert cfg.Threshold(1.0) == cfg.max;
      OneMore(cfg, s0, es, Free, lo, hi, t, 0, check);
      es, t := es + [check], Step(cfg, t, check);
    }
  }

  lemma {:induction false} NothingYet(cfg: Config, s0: Sys, lo: int, hi: int)
    requires cfg.Valid()
    ensures AdmittedSum(cfg, s0, [], lo, hi) == 0
    decreases hi - lo
  {
    if lo < hi {
      NothingYet(cfg, s0, lo, hi - 1);
    }
  }

  /** A waiting call counts itself, and the span ends. */
  lemma {:induction false} FreeSpan(cfg: Config, s0: Sys, es: seq<Event>, lo: int, hi: int, t: Sys, w: int,
                                    i: nat, m: nat)
      returns (es': seq<Event>, t': Sys)
    requires cfg.Valid() && Built(cfg, s0, es, Free, lo, hi, t, w) && Waiting(cfg, t, i, m)
    requires t.count == 0 && t.flush.Idle?
    requires i < m && lo <= t.tick < hi
    ensures Built(cfg, s0, es', Free, lo, hi, t', w + cfg.max) && Waiting(cfg, t', i + 1, m)
    ensures t'.count == 0 && t'.flush.Idle? && t'.tick == t.tick + 1
  {
    var u := t.(count := cfg.max, pending := t.pending - {i});
    assert Step(cfg, t, Add(i)) == u && Admitting(cfg, t, Add(i)) == cfg.max;
    OneMore(cfg, s0, es, Free, lo, hi, t, w, Add(i));
    es' := EndSpan(cfg, s0, es + [Add(i)], Free, lo, hi, u, w + cfg.max);
    SpanEndKeepsCalls(cfg, u);
    t' := SpanEnd(cfg, u, true);
  }

  lemma {:induction false} SpanEndKeepsCalls(cfg: Config, t: Sys)
    requires cfg.Valid() && t.flush.Idle?
    ensures var u := SpanEnd(cfg, t, true);
      u.pending == t.pending && u.count == 0 && u.flush.Idle? && u.tick == t.tick + 1
  {
  }

  /** Each waiting call counts itself in a span of its own. */
  lemma {:induction false} FreeFrom(cfg: Config, s0: Sys, es: seq<Event>, lo: int, hi: int, t: Sys, w: int,
                                    i: nat, m: nat)
      returns (es': seq<Event>)
    requires cfg.Valid() && Built(cfg, s0, es, Free, lo, hi, t, w) && Waiting(cfg, t, i, m)
    requires t.count == 0 && t.flush.Idle?
    requires lo <= t.tick && i <= m && t.tick + m - i == hi
    ensures Obeys(cfg, s0, es', Free) && AdmittedSum(cfg, s0, es', lo, hi) == w + cfg.max * (m - i)
    decreases m - i
  {
    es' := es;
    if i < m {
      var u;
      es', u := FreeSpan(cfg, s0, es, lo, hi, t, w, i, m);
      es' := FreeFrom(cfg, s0, es', lo, hi, u, w + cfg.max, i + 1, m);
      Scale(cfg.max, m - i - 1, m - i);
    }
  }

  // --------------------------------------------------- the bounds are reached

  /** At the beginning of the first interval that the node sees from its start. */
  function Start(cfg: Config): Sys
    requires cfg.Valid()
  {
    Init(cfg, cfg.StartOf(First(cfg, 1)))
  }

  lemma {:induction false} StartsThere(cfg: Config)
    requires cfg.Valid()
    ensures AtRest(cfg, Start(cfg)) && Start(cfg).tick == First(cfg, 1)
  {
    NextSpan(cfg, First(cfg, 1));
    QuotientIs(cfg.StartOf(First(cfg, 1)), cfg.Span(), First(cfg, 1));
    MulMonotone(0, First(cfg, 1), cfg.Span());
  }

  lemma {:induction false} OneKey(cfg: Config, k: int)
    requires cfg.Valid() && Even(cfg) && First(cfg, 1) <= k < First(cfg, 1) + cfg.spans
    ensures cfg.Key(k) == 1
  {
    SpansOfInterval(cfg, 1, k);
  }

  /** The whole limit in the first span: not over yet. */
  lemma {:induction false} FirstSpan(cfg: Config, calls: Calls) returns (es: seq<Event>, t: Sys)
    requires cfg.Valid() && Even(cfg) && cfg.max > 0
    ensures var lo := First(cfg, 1);
      Built(cfg, Start(cfg), es, calls, lo, lo + cfg.spans, t, cfg.max) && Ready(cfg, t, 1) && t.tick == lo + 1
  {
    var s0, lo := Start(cfg), First(cfg, 1);
    var hi := lo + cfg.spans;
    StartsThere(cfg);
    NothingYet(cfg, s0, lo, hi);
    OneKey(cfg, lo);
    es := FullCall(cfg, s0, [], calls, lo, hi, s0, 0);
    t := s0.(count := cfg.max);
    es := EndSpan(cfg, s0, es, calls, lo, hi, t, cfg.max);
    AfterSpanEnd(cfg, t, 1);
    t := SpanEnd(cfg, t, true);
    NextSpan(cfg, t.tick);
  }

  /** A run that reaches the bound of its kind, for every configuration. */
  lemma {:induction false} BoundIsReached(cfg: Config, calls: Calls, c: nat) returns (es: seq<Event>)
    requires cfg.Valid() && Even(cfg) && Exactly(cfg, c)
    ensures Obeys(cfg, Start(cfg), es, calls)
    ensures AdmittedIn(cfg, Start(cfg), es, 1) == cfg.max * (1 + Slots(cfg, cfg.spans - 1, calls, c))
  {
    var s0, lo := Start(cfg), First(cfg, 1);
    var hi, t := lo + cfg.spans, s0;
    var rest := Slots(cfg, cfg.spans - 1, calls, c);
    Scale(cfg.max, rest, rest);
    if cfg.max == 0 {
      es := [];
      NothingYet(cfg, s0, lo, hi);
    } else if calls.Free? {
      StartsThere(cfg);
      es, t := PassAll(cfg, s0, lo, hi, cfg.spans);
      es := FreeFrom(cfg, s0, es, lo, hi, t, 0, 0, cfg.spans);
    } else {
      es, t := FirstSpan(cfg, calls);
      if cfg.spans > 1 {
        es := FillInterval(cfg, es, calls, t, c);
      }
    }
  }

  /** A row that can be had and uses the slots up. */
  lemma {:induction false} RowFor(cfg: Config, calls: Calls, n: nat, c: nat) returns (row: nat)
    requires cfg.Valid() && n > 0 && !calls.Free?
    ensures RowOk(cfg, calls, row) && Rows(n, row, c) == Slots(cfg, n, calls, c)
  {
    row := 1;
    if calls.Whole? {
      row := if cfg.cooldown > cfg.Span() then LongRow(cfg) else n;
      if cfg.cooldown > cfg.Span() {
        FitsLongRow(cfg, row - 2);
      }
    }
  }

  lemma {:induction false} FillInterval(cfg: Config, es: seq<Event>, calls: Calls, t: Sys,
                                        c: nat) returns (es': seq<Event>)
    requires cfg.Valid() && Even(cfg) && Exactly(cfg, c) && cfg.max > 0 && cfg.spans > 1 && !calls.Free?
    requires var lo := First(cfg, 1);
      Built(cfg, Start(cfg), es, calls, lo, lo + cfg.spans, t, cfg.max) && Ready(cfg, t, 1) && t.tick == lo + 1
    ensures Obeys(cfg, Start(cfg), es', calls)
    ensures AdmittedIn(cfg, Start(cfg), es', 1) == cfg.max + cfg.max * Slots(cfg, cfg.spans - 1, calls, c)
  {
    var lo := First(cfg, 1);
    var hi := lo + cfg.spans;
    var row := RowFor(cfg, calls, cfg.spans - 1, c);
    forall k | t.tick <= k < hi ensures cfg.Key(k) == 1 {
      OneKey(cfg, k);
    }
    es' := RowsFrom(cfg, Start(cfg), es, calls, lo, hi, t, cfg.max, 1, row, c);
  }

  // ------------------------------------------------------- so, exactly when

  /** In no run of this kind, and no interval that the node lives through from its
      first span, does it admit more than b. */
  ghost predicate KeepsWithin(cfg: Config, calls: Calls, b: int)
    requires cfg.Valid()
  {
    forall now, es, n :: Obeys(cfg, Init(cfg, now), es, calls) && Init(cfg, now).tick <= First(cfg, n) ==>
      AdmittedIn(cfg, Init(cfg, now), es, n) <= b
  }

  lemma {:induction false} Exceeds(cfg: Config, calls: Calls, b: int, es: seq<Event>)
    requires cfg.Valid() && Obeys(cfg, Start(cfg), es, calls) && AdmittedIn(cfg, Start(cfg), es, 1) > b
    ensures !KeepsWithin(cfg, calls, b)
  {
    StartsThere(cfg);
  }

  lemma {:induction false} KeepsBound(cfg: Config, calls: Calls, c: nat, b: int)
    requires cfg.Valid() && Even(cfg) && Cools(cfg, c) && b >= cfg.max * (1 + Slots(cfg, cfg.spans - 1, calls, c))
    ensures KeepsWithin(cfg, calls, b)
  {
    forall now, es, n | Obeys(cfg, Init(cfg, now), es, calls) && Init(cfg, now).tick <= First(cfg, n)
      ensures AdmittedIn(cfg, Init(cfg, now), es, n) <= b
    {
      WholeIntervalAdmission(cfg, now, es, calls, c, n);
    }
  }

  /** The bound is the least one: a node keeps within b exactly if b is at least that. */
  lemma {:induction false} LeastBound(cfg: Config, calls: Calls, c: nat, b: int)
    requires cfg.Valid() && Even(cfg) && Exactly(cfg, c)
    ensures KeepsWithin(cfg, calls, b) <==> b >= cfg.max * (1 + Slots(cfg, cfg.spans - 1, calls, c))
  {
    if b >= cfg.max * (1 + Slots(cfg, cfg.spans - 1, calls, c)) {
      KeepsBound(cfg, calls, c, b);
    } else {
      var es := BoundIsReached(cfg, calls, c);
      Exceeds(cfg, calls, b, es);
    }
  }

  /** What fewer assumptions allow, more allow too. */
  lemma {:induction false} CalmIsFree(cfg: Config, s: Sys, es: seq<Event>, calls: Calls)
    requires cfg.Valid() && Obeys(cfg, s, es, Calm)
    ensures Obeys(cfg, s, es, calls)
  {
    if es != [] {
      CalmIsFree(cfg, s, es[..|es| - 1], calls);
    }
  }

  /** A node keeps MaxRequests per interval, whatever calls there are, exactly if the
      limit is zero or the interval is a single span. */
  lemma {:induction false} LimitIsKeptIff(cfg: Config, calls: Calls)
    requires cfg.Valid() && Even(cfg)
    ensures KeepsWithin(cfg, calls, cfg.max) <==> cfg.max == 0 || cfg.spans == 1
  {
    var c := cfg.cooldown / cfg.Span();
    QuotientIs(cfg.cooldown, cfg.Span(), c);
    Distribute(c, 1, cfg.Span());
    if cfg.max == 0 || cfg.spans == 1 {
      KeepsBound(cfg, calls, c, cfg.max);
    } else {
      var es := BoundIsReached(cfg, Calm, c);
      CalmIsFree(cfg, Start(cfg), es, calls);
      Scale(cfg.max, 2, 1 + Slots(cfg, cfg.spans - 1, Calm, c));
      Exceeds(cfg, calls, cfg.max, es);
    }
  }

  /** The bound of a calm run holds with calls under way at the ends of spans exactly
      if there is nothing to exceed. */
  lemma {:induction false} CalmBoundFreeIff(cfg: Config, c: nat)
    requires cfg.Valid() && Even(cfg) && Exactly(cfg, c) && cfg.spans >= 2
    ensures KeepsWithin(cfg, Free, cfg.max * (2 + (cfg.spans - 2) / (c + 1))) <==>
            cfg.max == 0 || cfg.spans == 2 || c == 0
  {
    var n := cfg.spans;
    LeastBound(cfg, Free, c, cfg.max * (2 + (n - 2) / (c + 1)));
    CompareBounds(cfg.max, n, 2 + (n - 2) / (c + 1));
    QuotientIs(n - 2, c + 1, (n - 2) / (c + 1));
    FewerQuotients(n - 2, c);
  }

  lemma {:induction false} FewerQuotients(x: nat, c: nat)
    ensures x / (c + 1) <= x && (x / (c + 1) == x <==> x == 0 || c == 0)
  {
    var q := x / (c + 1);
    QuotientIs(x, c + 1, q);
    Distribute(c, 1, q);
    if c > 0 && q > 0 {
      MulMonotone(1, c, q);
    }
  }

  lemma {:induction false} CompareBounds(max: nat, m: int, n: int)
    ensures max * m <= max * n <==> max == 0 || m <= n
  {
    if m <= n {
      Scale(max, m, n);
    } else {
      Scale(max, n + 1, m);
      Scale(max, n, n);
    }
  }

  // ------------------------------------- calls between the swap and the block

  lemma {:induction false} PairsAgainstSingles(n: nat, c: nat)
    requires n >= 2 && c >= 2
    ensures 1 + Rows(n - 1, 2, c) <= 2 + (n - 2) / (c + 1) <==> n == 2 || n == c + 3
  {
    var q, r := DivMod(n - 1, c + 2);
    RowsAsQuotient(q, r, 2, c);
    OneLess(n, c, q, r);
    QuotientOfSum(q, q + r - 1, c + 1);
    SmallQuotient(q, r, c);
    SmallProduct(q, r, c + 2);
  }

  /** Three or more in every four are more than one in two. */
  lemma {:induction false} LongRowsAgainstSingles(n: nat, row: nat)
    requires n >= 2 && row >= 3
    ensures 1 + Rows(n - 1, row, 1) <= 2 + (n - 2) / 2 <==> n == 2
    decreases n
  {
    if n > 3 {
      RowsStep(n - 1, 3, row, 1);
      if n > 5 {
        LongRowsAgainstSingles(n - 4, row);
      }
    }
  }

  lemma {:induction false} DivMod(x: nat, d: nat) returns (q: nat, r: nat)
    requires d > 0
    ensures x == q * d + r && r < d
  {
    q, r := x / d, x % d;
  }

  lemma {:induction false} SmallProduct(q: nat, r: nat, d: nat)
    requires r < d && d >= 2
    ensures q * d + r == 1 <==> q == 0 && r == 1
    ensures q * d + r == d <==> q == 1 && r == 0
  {
    if q >= 2 {
      MulMonotone(2, q, d);
    }
  }

  lemma {:induction false} OneLess(n: int, c: int, q: int, r: int)
    requires n - 1 == q * (c + 2) + r
    ensures n - 2 == q * (c + 1) + (q + r - 1)
  {
    Distribute(c + 1, 1, q);
  }

  lemma {:induction false} QuotientOfSum(q: int, x: int, d: int)
    requires d > 0
    ensures (q * d + x) / d == q + x / d
  {
    var p := x / d;
    QuotientIs(x, d, p);
    Distribute(q, p, d);
    QuotientIs(q * d + x, d, q + p);
  }

  lemma {:induction false} SmallQuotient(q: nat, r: nat, c: nat)
    requires c >= 2 && r < c + 2 && q + r >= 1
    ensures 2 * q + (if r < 2 then r else 2) <= 1 + q + (q + r - 1) / (c + 1) <==>
            (q == 0 && r == 1) || (q == 1 && r == 0)
  {
    QuotientIs(q + r - 1, c + 1, 0);
    QuotientIs(q + r - 1, c + 1, 1);
    if q >= 3 {
      ManyPairs(q, r, c);
    }
  }

  lemma {:induction false} ManyPairs(q: nat, r: nat, c: nat)
    requires c >= 2 && r < c + 2 && q >= 3
    ensures (q + r - 1) / (c + 1) < q - 1
  {
    var p := (q + r - 1) / (c + 1);
    QuotientIs(q + r - 1, c + 1, p);
    if p >= q - 1 {
      MulMonotone(q - 1, p, c + 1);
      Distribute(c, 1, q - 1);
      MulMonotone(2, q - 1, c);
    }
  }

  /** The bound of a calm run holds with calls between the swap and the block exactly
      in these cases; the default configuration is of the last kind. */
  lemma {:induction false} CalmBoundWholeIff(cfg: Config, c: nat)
    requires cfg.Valid() && Even(cfg) && Exactly(cfg, c) && cfg.spans >= 2
    ensures KeepsWithin(cfg, Whole, cfg.max * (2 + (cfg.spans - 2) / (c + 1))) <==>
            cfg.max == 0 || cfg.spans == 2 || c == 0 || (c >= 2 && cfg.spans == c + 3)
  {
    var b := 2 + (cfg.spans - 2) / (c + 1);
    LeastBound(cfg, Whole, c, cfg.max * b);
    CompareBounds(cfg.max, 1 + Slots(cfg, cfg.spans - 1, Whole, c), b);
    RowsAgainstSingles(cfg, c);
  }

  lemma {:induction false} RowsAgainstSingles(cfg: Config, c: nat)
    requires cfg.Valid() && Exactly(cfg, c) && cfg.spans >= 2
    ensures 1 + Slots(cfg, cfg.spans - 1, Whole, c) <= 2 + (cfg.spans - 2) / (c + 1) <==>
            cfg.spans == 2 || c == 0 || (c >= 2 && cfg.spans == c + 3)
  {
    var n := cfg.spans;
    if cfg.cooldown <= cfg.Span() {
      assert c <= 1 by { MulMonotone(2, if c >= 2 then c else 2, cfg.Span()); }
      FewerQuotients(n - 2, c);
    } else {
      var row := LongRow(cfg);
      RowsOfCooldown(cfg, c);
      if c == 1 {
        LongRowsAgainstSingles(n, row);
      } else {
        PairsAgainstSingles(n, c);
      }
    }
  }

  /** Two in a row if the cooldown is two spans or more, and more if it is less. */
  lemma {:induction false} RowsOfCooldown(cfg: Config, c: nat)
    requires cfg.Valid() && Exactly(cfg, c) && cfg.cooldown > cfg.Span()
    ensures c >= 1 && (LongRow(cfg) == 2 <==> c >= 2)
  {
    FitsLongRow(cfg, 1);
    if c >= 2 {
      MulMonotone(2, c, cfg.Span());
    }
  }

  // --------------------------------------------------------------- the defaults

  /** 100 requests a minute, 6 spans, 30 seconds of cooldown. */
  const DEFAULTS := Config(100, 60_000_000_000, 6, 30_000_000_000)

  /** The defaults let one node admit three times MaxRequests in one interval, and no
      more, calls between a swap and its block included. */
  lemma {:induction false} DefaultsAdmitThreefold(calls: Calls, b: int)
    ensures !calls.Free? ==> (KeepsWithin(DEFAULTS, calls, b) <==> b >= 300)
    ensures KeepsWithin(DEFAULTS, Free, b) <==> b >= 600
  {
    assert DEFAULTS.Span() == 10_000_000_000 && Exactly(DEFAULTS, 3) && Even(DEFAULTS);
    LeastBound(DEFAULTS, calls, 3, b);
    LeastBound(DEFAULTS, Free, 3, b);
    assert LongRow(DEFAULTS) == 2 && Rows(5, 1, 3) == 2 && Rows(5, 2, 3) == 2;
  }

  /** A call between the swap and the block can break the bound of a calm run. */
  lemma {:induction false} WindowCallsEscape()
    ensures var cfg := Config(100, 30, 3, 10);
      KeepsWithin(cfg, Calm, 200) && !KeepsWithin(cfg, Whole, 200)
  {
    var cfg := Config(100, 30, 3, 10);
    LeastBound(cfg, Calm, 1, 200);
    assert Rows(2, 1, 1) == 1;
    CalmBoundWholeIff(cfg, 1);
  }
}
