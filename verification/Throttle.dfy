/** The span-based throttler as a protocol of small steps, seen from one route
    (proxy/internal/throttling/throttling.go).  A call of IncrementAndCheck is three
    steps and the end of a span is four, cut where they release their locks, and any
    number of calls may be under way at once.  Other nodes add to the shared counters
    at any time.  Routes do not influence each other: class Throttler in module
    Throttler shows that for the maps. */
module Throttle {

  /** There is at least this node. */
  function Nodes(estimate: real): (n: real)
    ensures n >= 1.0 && n >= estimate && (n == 1.0 || n == estimate)
  {
    if estimate > 1.0 then estimate else 1.0
  }

  /** Times in nanoseconds. */
  datatype Config = Config(max: int, interval: int, spans: int, cooldown: int) {
    predicate Valid() {
      max >= 0 && spans > 0 && cooldown >= 0 && interval >= spans
    }

    function Span(): (d: int)
      requires Valid()
      ensures d > 0
    {
      interval / spans
    }

    /** When span k begins. */
    function StartOf(k: int): int
      requires Valid()
    {
      k * Span()
    }

    /** The interval counter that takes the counts of span k, flushed as it ends. */
    function Key(k: int): int
      requires Valid()
    {
      StartOf(k + 1) / interval
    }

    /** int(MaxRequests / max(1, nodes)). */
    function Threshold(nodes: real): (t: int)
      requires Valid()
      ensures 0 <= t <= max
    {
      assert 0.0 <= max as real / Nodes(nodes) <= max as real by { QuotientBounds(max as real, Nodes(nodes)); }
      (max as real / Nodes(nodes)).Floor
    }
  }

  lemma {:induction false} QuotientBounds(x: real, n: real)
    requires x >= 0.0 && n >= 1.0
    ensures 0.0 <= x / n <= x
  {
    var q := x / n;
    assert q * n == x;
    assert x * (n - 1.0) >= 0.0;
    assert (x - q) * n >= 0.0;
  }

  lemma {:induction false} RealScale(x: real, y: real, n: real)
    requires n > 0.0
    ensures x <= y <==> x * n <= y * n
  {
    if x <= y {
      assert (y - x) * n >= 0.0;
    } else {
      assert (x - y) * n > 0.0;
    }
  }

  lemma {:induction false} QuotientFits(count: int, x: real, n: real)
    requires n > 0.0
    ensures count <= (x / n).Floor <==> count as real * n <= x
  {
    var q := x / n;
    assert q * n == x;
    RealScale(count as real, q, n);
    assert count <= q.Floor <==> count as real <= q;
  }

  /** The threshold is this node's share: a count fits exactly if as many on each of the
      nodes fit into the limit. */
  lemma {:induction false} ThresholdIsShare(cfg: Config, count: int, estimate: real)
    requires cfg.Valid()
    ensures count <= cfg.Threshold(estimate) <==> count as real * Nodes(estimate) <= cfg.max as real
  {
    QuotientFits(count, cfg.max as real, Nodes(estimate));
  }

  type Tally = map<int, int>

  /** A map read in Go: zero when absent. */
  function At(m: Tally, k: int): int {
    if k in m then m[k] else 0
  }

  function Plus(m: Tally, k: int, w: int): Tally {
    m[k := At(m, k) + w]
  }

  /** A call that has passed the blocked check, or has counted itself over the threshold. */
  datatype Pending = Passed(weight: nat, threshold: int) | Exceeded

  /** How far the end of a span has got: nothing to do; the count swapped out but not
      yet added to interval counter `key`; added, over the limit and not yet blocked. */
  datatype Flush = Idle | Swapped(batch: int, key: int) | Over

  /** `tick` numbers the running span, which lasts from StartOf(tick) to StartOf(tick + 1);
      `count` is the route's entry of localCounts, `blockedUntil` its entry of
      blockedRoutes (zero if it has none), `store` its shared interval counters. */
  datatype Sys = Sys(now: int, tick: int, count: int, blockedUntil: int, store: Tally,
                     pending: map<int, Pending>, flush: Flush)

  function Init(cfg: Config, now: int): Sys
    requires cfg.Valid()
  {
    Sys(now, now / cfg.Span(), 0, 0, map[], map[], Idle)
  }

  // ---------------------------------------------------------------- the steps

  /** Swap, Clean, Flush and BlockOver are processSpan, cut where it releases its locks:
      calls may take their own steps in between. */
  datatype Event =
    | Advance(time: int)
    | Check(id: int, weight: nat, nodes: real)
    | Add(id: int)
    | Block(id: int)
    | Swap
    | Clean
    | Flush(reachable: bool)
    | BlockOver
    | Remote(interval: int, amount: nat)

  /** Time stays inside the running span until the swap that ends it, and one span is
      dealt with before the next one ends. */
  predicate Enabled(cfg: Config, s: Sys, e: Event)
    requires cfg.Valid()
  {
    match e
    case Advance(t) => s.now <= t < cfg.StartOf(s.tick + 1)
    case Check(id, _, _) => id !in s.pending
    case Add(id) => id in s.pending && s.pending[id].Passed?
    case Block(id) => id in s.pending && s.pending[id].Exceeded?
    case Swap => s.flush.Idle?
    case Flush(_) => s.flush.Swapped?
    case BlockOver => s.flush.Over?
    case _ => true
  }

  /** The flush blocks a route that counted something in its span and whose counter is
      over the limit (or, without the store, its count over its share). */
  predicate OverLimit(cfg: Config, count: int, total: int, reachable: bool)
    requires cfg.Valid()
  {
    count != 0 && if reachable then total > cfg.max else count > cfg.max / cfg.spans
  }

  predicate Admits(s: Sys, p: Pending)
    requires p.Passed?
  {
    s.count + p.weight <= p.threshold
  }

  function SwapStep(cfg: Config, s: Sys): Sys
    requires cfg.Valid()
  {
    s.(now := cfg.StartOf(s.tick + 1), tick := s.tick + 1, count := 0, flush := Swapped(s.count, cfg.Key(s.tick)))
  }

  function FlushStep(cfg: Config, s: Sys, reachable: bool): Sys
    requires cfg.Valid() && s.flush.Swapped?
  {
    var store := if reachable && s.flush.batch != 0 then Plus(s.store, s.flush.key, s.flush.batch) else s.store;
    s.(store := store, flush := if OverLimit(cfg, s.flush.batch, At(store, s.flush.key), reachable) then Over else Idle)
  }

  function Step(cfg: Config, s: Sys, e: Event): Sys
    requires cfg.Valid()
  {
    if !Enabled(cfg, s, e) then s
    else match e
      case Advance(t) => s.(now := t)
      case Check(id, w, nodes) =>
        if s.now < s.blockedUntil then s else s.(pending := s.pending[id := Passed(w, cfg.Threshold(nodes))])
      case Add(id) =>
        s.(count := s.count + s.pending[id].weight,
           pending := if Admits(s, s.pending[id]) then s.pending - {id} else s.pending[id := Exceeded])
      case Block(id) => s.(blockedUntil := s.now + cfg.cooldown, pending := s.pending - {id})
      case Swap => SwapStep(cfg, s)
      case Clean => s.(blockedUntil := if s.now > s.blockedUntil then 0 else s.blockedUntil)
      case Flush(reachable) => FlushStep(cfg, s, reachable)
      case BlockOver => s.(blockedUntil := s.now + cfg.cooldown, flush := Idle)
      case Remote(n, amount) => s.(store := Plus(s.store, n, amount))
  }

  /** The end of a span that nothing interrupts. */
  function SpanEnd(cfg: Config, s: Sys, reachable: bool): Sys
    requires cfg.Valid()
  {
    Step(cfg, Step(cfg, Step(cfg, Step(cfg, s, Swap), Clean), Flush(reachable)), BlockOver)
  }

  // ------------------------------------------------------ what a run recorded

  /** The state after a run; an event that is not enabled changes nothing. */
  function Run(cfg: Config, s: Sys, es: seq<Event>): Sys
    requires cfg.Valid()
  {
    if es == [] then s else Step(cfg, Run(cfg, s, es[..|es| - 1]), es[|es| - 1])
  }

  /** Weight that one step admits; only Add does. */
  function Admitting(cfg: Config, s: Sys, e: Event): nat
    requires cfg.Valid()
  {
    if e.Add? && Enabled(cfg, s, e) && Admits(s, s.pending[e.id]) then s.pending[e.id].weight else 0
  }

  /** Weight that one step counts, admitted or denied. */
  function Counting(cfg: Config, s: Sys, e: Event): nat
    requires cfg.Valid()
  {
    if e.Add? && Enabled(cfg, s, e) then s.pending[e.id].weight else 0
  }

  /** Weight admitted in span k. */
  function Admitted(cfg: Config, s: Sys, es: seq<Event>, k: int): nat
    requires cfg.Valid()
  {
    if es == [] then 0
    else
      var before := Run(cfg, s, es[..|es| - 1]);
      Admitted(cfg, s, es[..|es| - 1], k) + if before.tick == k then Admitting(cfg, before, es[|es| - 1]) else 0
  }

  /** The batch swapped out at the end of span k. */
  function Flushed(cfg: Config, s: Sys, es: seq<Event>, k: int): int
    requires cfg.Valid()
  {
    if es == [] then 0
    else
      var before := Run(cfg, s, es[..|es| - 1]);
      if es[|es| - 1].Swap? && before.flush.Idle? && before.tick == k then before.count
      else Flushed(cfg, s, es[..|es| - 1], k)
  }

  /** All weight ever counted. */
  function Counted(cfg: Config, s: Sys, es: seq<Event>): nat
    requires cfg.Valid()
  {
    if es == [] then 0
    else Counted(cfg, s, es[..|es| - 1]) + Counting(cfg, Run(cfg, s, es[..|es| - 1]), es[|es| - 1])
  }

  /** Did the flush of span k, which takes place in span k + 1, reach the store? */
  predicate Reached(cfg: Config, s: Sys, es: seq<Event>, k: int)
    requires cfg.Valid()
  {
    if es == [] then false
    else
      var before := Run(cfg, s, es[..|es| - 1]);
      if es[|es| - 1].Flush? && before.flush.Swapped? && before.tick == k + 1 then es[|es| - 1].reachable
      else Reached(cfg, s, es[..|es| - 1], k)
  }

  /** What other nodes added to interval counter n. */
  function RemoteTotal(es: seq<Event>, n: int): nat {
    if es == [] then 0
    else
      var e := es[|es| - 1];
      RemoteTotal(es[..|es| - 1], n) + if e.Remote? && e.interval == n then e.amount else 0
  }

  // --------------------------------------------- invariants of every run

  ghost predicate Timely(cfg: Config, tick: int, now: int)
    requires cfg.Valid()
  {
    cfg.StartOf(tick) <= now < cfg.StartOf(tick + 1)
  }

  ghost predicate ThresholdsOk(pending: map<int, Pending>, max: int) {
    forall id :: id in pending && pending[id].Passed? ==> pending[id].threshold <= max
  }

  ghost predicate StateOk(cfg: Config, s: Sys)
    requires cfg.Valid()
  {
    Timely(cfg, s.tick, s.now) && ThresholdsOk(s.pending, cfg.max) && s.count >= 0
  }

  lemma {:induction false} NextSpan(cfg: Config, k: int)
    requires cfg.Valid()
    ensures cfg.StartOf(k + 1) == cfg.StartOf(k) + cfg.Span()
  {
  }

  lemma {:induction false} InitOk(cfg: Config, now: int)
    requires cfg.Valid()
    ensures StateOk(cfg, Init(cfg, now))
  {
    NextSpan(cfg, now / cfg.Span());
  }

  lemma {:induction false} StepOk(cfg: Config, s: Sys, e: Event)
    requires cfg.Valid() && StateOk(cfg, s)
    ensures StateOk(cfg, Step(cfg, s, e))
  {
    if e.Swap? {
      NextSpan(cfg, s.tick + 1);
    }
  }

  lemma {:induction false} RunOk(cfg: Config, s: Sys, es: seq<Event>)
    requires cfg.Valid() && StateOk(cfg, s)
    ensures StateOk(cfg, Run(cfg, s, es)) && s.tick <= Run(cfg, s, es).tick
  {
    if es != [] {
      RunOk(cfg, s, es[..|es| - 1]);
      StepOk(cfg, Run(cfg, s, es[..|es| - 1]), es[|es| - 1]);
    }
  }

  /** What holds of span k when a has been admitted in it and b flushed from it. */
  ghost predicate SpanOk(limit: int, start: int, s: Sys, k: int, a: int, b: int) {
    && 0 <= a <= limit && 0 <= b
    && (k < s.tick ==> a <= b)
    && (k == s.tick ==> a <= s.count)
    && (k >= s.tick ==> b == 0)
    && (k > s.tick || k < start ==> a == 0)
  }

  lemma {:induction false} SpanStep(cfg: Config, start: int, s: Sys, e: Event, k: int, a: int, b: int, limit: int)
    requires cfg.Valid() && StateOk(cfg, s) && start <= s.tick && SpanOk(limit, start, s, k, a, b)
    requires ThresholdsOk(s.pending, limit)
    ensures SpanOk(limit, start, Step(cfg, s, e), k,
                   a + if s.tick == k then Admitting(cfg, s, e) else 0,
                   if e.Swap? && s.flush.Idle? && s.tick == k then s.count else b)
  {
  }

  /** Every call of the run sees at most this threshold. */
  ghost predicate ThresholdsWithin(cfg: Config, es: seq<Event>, limit: int)
    requires cfg.Valid()
  {
    forall i :: 0 <= i < |es| && es[i].Check? ==> cfg.Threshold(es[i].nodes) <= limit
  }

  lemma {:induction false} PendingWithin(cfg: Config, now: int, es: seq<Event>, limit: int)
    requires cfg.Valid() && ThresholdsWithin(cfg, es, limit)
    ensures ThresholdsOk(Run(cfg, Init(cfg, now), es).pending, limit)
  {
    if es != [] {
      PendingWithin(cfg, now, es[..|es| - 1], limit);
    }
  }

  lemma {:induction false} SpanWithin(cfg: Config, now: int, es: seq<Event>, k: int, limit: int)
    requires cfg.Valid() && limit >= 0 && ThresholdsWithin(cfg, es, limit)
    ensures var s0 := Init(cfg, now);
      SpanOk(limit, s0.tick, Run(cfg, s0, es), k, Admitted(cfg, s0, es, k), Flushed(cfg, s0, es, k))
  {
    var s0 := Init(cfg, now);
    if es == [] {
      assert Run(cfg, s0, es) == s0;
    } else {
      var n := |es| - 1;
      InitOk(cfg, now);
      RunOk(cfg, s0, es[..n]);
      SpanWithin(cfg, now, es[..n], k, limit);
      PendingWithin(cfg, now, es[..n], limit);
      SpanStep(cfg, s0.tick, Run(cfg, s0, es[..n]), es[n], k,
               Admitted(cfg, s0, es[..n], k), Flushed(cfg, s0, es[..n], k), limit);
    }
  }

  /** Under every interleaving: a span admits at most the limit and at most what it
      counts, and spans not yet begun or not yet over have recorded nothing. */
  lemma {:induction false} SpanAdmission(cfg: Config, now: int, es: seq<Event>, k: int)
    requires cfg.Valid()
    ensures var s0 := Init(cfg, now);
      SpanOk(cfg.max, s0.tick, Run(cfg, s0, es), k, Admitted(cfg, s0, es, k), Flushed(cfg, s0, es, k))
  {
    SpanWithin(cfg, now, es, k, cfg.max);
  }

  lemma {:induction false} ShareBound(cfg: Config, now: int, es: seq<Event>, k: int, nodes: real)
    requires cfg.Valid() && nodes >= 1.0
    requires forall i :: 0 <= i < |es| && es[i].Check? ==> es[i].nodes >= nodes
    ensures Admitted(cfg, Init(cfg, now), es, k) <= cfg.Threshold(nodes)
  {
    forall i | 0 <= i < |es| && es[i].Check? ensures cfg.Threshold(es[i].nodes) <= cfg.Threshold(nodes) {
      FewerShares(cfg, es[i].nodes, nodes);
    }
    SpanWithin(cfg, now, es, k, cfg.Threshold(nodes));
  }

  /** If every call sees at least so many nodes, a span admits at most their share of the
      limit: that many nodes that do so admit no more than the limit together. */
  lemma {:induction false} ShareAdmission(cfg: Config, now: int, es: seq<Event>, k: int, nodes: real)
    requires cfg.Valid() && nodes >= 1.0
    requires forall i :: 0 <= i < |es| && es[i].Check? ==> es[i].nodes >= nodes
    ensures Admitted(cfg, Init(cfg, now), es, k) as real * nodes <= cfg.max as real
  {
    ShareBound(cfg, now, es, k, nodes);
    ShareOf(cfg, Admitted(cfg, Init(cfg, now), es, k), nodes);
  }

  lemma {:induction false} ShareOf(cfg: Config, count: int, nodes: real)
    requires cfg.Valid() && nodes >= 1.0 && count <= cfg.Threshold(nodes)
    ensures count as real * nodes <= cfg.max as real
  {
    ThresholdIsShare(cfg, count, nodes);
    assert Nodes(nodes) == nodes;
  }

  lemma {:induction false} FewerShares(cfg: Config, more: real, nodes: real)
    requires cfg.Valid() && more >= nodes >= 1.0
    ensures cfg.Threshold(more) <= cfg.Threshold(nodes)
  {
    var t := cfg.Threshold(more);
    ShareOf(cfg, t, more);
    RealScaleLeft(t as real, nodes, more);
    FitsShare(cfg, t, nodes);
  }

  lemma {:induction false} FitsShare(cfg: Config, count: int, nodes: real)
    requires cfg.Valid() && nodes >= 1.0 && count as real * nodes <= cfg.max as real
    ensures count <= cfg.Threshold(nodes)
  {
    ThresholdIsShare(cfg, count, nodes);
    assert Nodes(nodes) == nodes;
  }

  lemma {:induction false} RealScaleLeft(t: real, n: real, m: real)
    requires t >= 0.0 && n <= m
    ensures t * n <= t * m
  {
    assert t * (m - n) >= 0.0;
  }

  // ------------------------------------------------------------ conservation

  /** Weight flushed from spans lo to hi - 1. */
  function FlushedSum(cfg: Config, s: Sys, es: seq<Event>, lo: int, hi: int): int
    requires cfg.Valid()
    decreases hi - lo
  {
    if hi <= lo then 0 else FlushedSum(cfg, s, es, lo, hi - 1) + Flushed(cfg, s, es, hi - 1)
  }

  /** Weight that the flushes of spans lo to hi - 1 brought to interval counter n. */
  function Brought(cfg: Config, s: Sys, es: seq<Event>, n: int, lo: int, hi: int): int
    requires cfg.Valid()
    decreases hi - lo
  {
    if hi <= lo then 0
    else Brought(cfg, s, es, n, lo, hi - 1) +
         if Reached(cfg, s, es, hi - 1) && cfg.Key(hi - 1) == n then Flushed(cfg, s, es, hi - 1) else 0
  }

  /** A further event leaves the batches of earlier spans alone. */
  lemma {:induction false} BatchesStay(cfg: Config, s: Sys, es: seq<Event>, lo: int, hi: int)
    requires cfg.Valid() && es != [] && hi <= Run(cfg, s, es[..|es| - 1]).tick
    ensures FlushedSum(cfg, s, es, lo, hi) == FlushedSum(cfg, s, es[..|es| - 1], lo, hi)
    decreases hi - lo
  {
    if lo < hi {
      BatchesStay(cfg, s, es, lo, hi - 1);
    }
  }

  /** A swap moves the count into its batch; other events move nothing there. */
  lemma {:induction false} BatchStep(cfg: Config, s0: Sys, es: seq<Event>)
    requires cfg.Valid() && es != [] && s0.tick <= Run(cfg, s0, es[..|es| - 1]).tick
    ensures var before, t, e := Run(cfg, s0, es[..|es| - 1]), Run(cfg, s0, es), es[|es| - 1];
      t.count + FlushedSum(cfg, s0, es, s0.tick, t.tick) ==
        before.count + FlushedSum(cfg, s0, es[..|es| - 1], s0.tick, before.tick) + Counting(cfg, before, e)
  {
    BatchesStay(cfg, s0, es, s0.tick, Run(cfg, s0, es[..|es| - 1]).tick);
  }

  /** Conservation over every run: all weight ever counted is in the live count or in
      exactly one batch. */
  lemma {:induction false} NoWeightLost(cfg: Config, now: int, es: seq<Event>)
    requires cfg.Valid()
    ensures var s0 := Init(cfg, now); var s := Run(cfg, s0, es);
      Counted(cfg, s0, es) == s.count + FlushedSum(cfg, s0, es, s0.tick, s.tick)
  {
    if es != [] {
      var s0, m := Init(cfg, now), |es| - 1;
      InitOk(cfg, now);
      RunOk(cfg, s0, es[..m]);
      NoWeightLost(cfg, now, es[..m]);
      BatchStep(cfg, s0, es);
    }
  }

  /** The batch in hand is that of the span before, and has not reached the store; no
      flush of the running span or a later one has. */
  lemma {:induction false} BatchInHand(cfg: Config, s0: Sys, es: seq<Event>, k: int)
    requires cfg.Valid() && s0.flush.Idle?
    ensures var s := Run(cfg, s0, es);
      && s0.tick <= s.tick
      && (s.flush.Swapped? ==>
            && s0.tick < s.tick && s.flush.key == cfg.Key(s.tick - 1)
            && s.flush.batch == Flushed(cfg, s0, es, s.tick - 1))
      && (k >= s.tick || (s.flush.Swapped? && k == s.tick - 1) ==> !Reached(cfg, s0, es, k))
  {
    if es != [] {
      BatchInHand(cfg, s0, es[..|es| - 1], k);
    }
  }

  lemma {:induction false} ReachedStays(cfg: Config, s0: Sys, es: seq<Event>, n: int, lo: int, hi: int)
    requires cfg.Valid() && es != []
    requires var before := Run(cfg, s0, es[..|es| - 1]); hi < before.tick || (hi == before.tick && !es[|es| - 1].Flush?)
    ensures Brought(cfg, s0, es, n, lo, hi) == Brought(cfg, s0, es[..|es| - 1], n, lo, hi)
    decreases hi - lo
  {
    if lo < hi {
      ReachedStays(cfg, s0, es, n, lo, hi - 1);
    }
  }

  lemma {:induction false} StoreAfterStep(cfg: Config, s: Sys, e: Event, n: int)
    requires cfg.Valid()
    ensures At(Step(cfg, s, e).store, n) == At(s.store, n) +
      (if e.Remote? && e.interval == n then e.amount else 0) +
      (if e.Flush? && s.flush.Swapped? && e.reachable && s.flush.key == n then s.flush.batch else 0)
  {
  }

  /** A flush that reaches the store brings the batch in hand. */
  lemma {:induction false} FlushBrings(cfg: Config, s0: Sys, es: seq<Event>, n: int)
    requires cfg.Valid() && es != [] && s0.flush.Idle? && es[|es| - 1].Flush?
    requires Run(cfg, s0, es[..|es| - 1]).flush.Swapped?
    ensures var before, e := Run(cfg, s0, es[..|es| - 1]), es[|es| - 1];
      Brought(cfg, s0, es, n, s0.tick, before.tick) == Brought(cfg, s0, es[..|es| - 1], n, s0.tick, before.tick) +
        if e.reachable && before.flush.key == n then before.flush.batch else 0
  {
    var before := Run(cfg, s0, es[..|es| - 1]);
    BatchInHand(cfg, s0, es[..|es| - 1], before.tick - 1);
    ReachedStays(cfg, s0, es, n, s0.tick, before.tick - 1);
  }

  lemma {:induction false} SwapBringsNothing(cfg: Config, s0: Sys, es: seq<Event>, n: int)
    requires cfg.Valid() && es != [] && s0.flush.Idle? && !es[|es| - 1].Flush?
    ensures Brought(cfg, s0, es, n, s0.tick, Run(cfg, s0, es).tick) ==
            Brought(cfg, s0, es[..|es| - 1], n, s0.tick, Run(cfg, s0, es[..|es| - 1]).tick)
  {
    var before, t := Run(cfg, s0, es[..|es| - 1]), Run(cfg, s0, es);
    BatchInHand(cfg, s0, es[..|es| - 1], before.tick);
    ReachedStays(cfg, s0, es, n, s0.tick, before.tick);
    BatchInHand(cfg, s0, es, before.tick);
    assert t.tick == before.tick || (t.tick == before.tick + 1 && t.flush.Swapped?);
  }

  lemma {:induction false} IdleFlush(cfg: Config, s0: Sys, es: seq<Event>, n: int)
    requires cfg.Valid() && es != [] && es[|es| - 1].Flush? && !Run(cfg, s0, es[..|es| - 1]).flush.Swapped?
    ensures Brought(cfg, s0, es, n, s0.tick, Run(cfg, s0, es).tick) ==
            Brought(cfg, s0, es[..|es| - 1], n, s0.tick, Run(cfg, s0, es[..|es| - 1]).tick)
  {
    SameReached(cfg, s0, es, n, s0.tick, Run(cfg, s0, es).tick);
  }

  lemma {:induction false} SameReached(cfg: Config, s0: Sys, es: seq<Event>, n: int, lo: int, hi: int)
    requires cfg.Valid() && es != [] && es[|es| - 1].Flush? && !Run(cfg, s0, es[..|es| - 1]).flush.Swapped?
    ensures Brought(cfg, s0, es, n, lo, hi) == Brought(cfg, s0, es[..|es| - 1], n, lo, hi)
    decreases hi - lo
  {
    if lo < hi {
      SameReached(cfg, s0, es, n, lo, hi - 1);
    }
  }

  /** What one event adds to what the flushes have brought so far. */
  lemma {:induction false} BroughtStep(cfg: Config, s0: Sys, es: seq<Event>, n: int)
    requires cfg.Valid() && es != [] && s0.flush.Idle?
    ensures var before, t, e := Run(cfg, s0, es[..|es| - 1]), Run(cfg, s0, es), es[|es| - 1];
      Brought(cfg, s0, es, n, s0.tick, t.tick) == Brought(cfg, s0, es[..|es| - 1], n, s0.tick, before.tick) +
        if e.Flush? && before.flush.Swapped? && e.reachable && before.flush.key == n then before.flush.batch else 0
  {
    if !es[|es| - 1].Flush? {
      SwapBringsNothing(cfg, s0, es, n);
    } else if Run(cfg, s0, es[..|es| - 1]).flush.Swapped? {
      FlushBrings(cfg, s0, es, n);
    } else {
      IdleFlush(cfg, s0, es, n);
    }
  }

  /** And each interval counter is what other nodes added plus this node's batches
      that reached it. */
  lemma {:induction false} CountersAddUp(cfg: Config, now: int, es: seq<Event>, n: int)
    requires cfg.Valid()
    ensures var s0 := Init(cfg, now); var s := Run(cfg, s0, es);
      At(s.store, n) == RemoteTotal(es, n) + Brought(cfg, s0, es, n, s0.tick, s.tick)
  {
    if es != [] {
      var s0, m := Init(cfg, now), |es| - 1;
      CountersAddUp(cfg, now, es[..m], n);
      BroughtStep(cfg, s0, es, n);
      StoreAfterStep(cfg, Run(cfg, s0, es[..m]), es[m], n);
    }
  }
}
