/** The throttler object with its maps (proxy/internal/throttling/throttling.go).
    Each method is proved, route by route, to be the step of module Throttle; a call
    that runs alone is its three steps in a row. */
module Throttler {
  import opened Throttle

  /** The shared store: one counter per route and interval. */
  class Store {
    var counters: map<(string, int), int>
    constructor ()
      ensures counters == map[]
    {
      counters := map[];
    }
  }

  function Read(m: map<string, int>, k: string): int {
    if k in m then m[k] else 0
  }

  /** Does the second step of such a call admit its weight? */
  predicate CallAdmits(cfg: Config, s: Sys, weight: nat, nodes: real)
    requires cfg.Valid()
  {
    var checked := Step(cfg, s, Check(0, weight, nodes));
    0 in checked.pending && checked.pending[0].Passed? && Admits(checked, checked.pending[0])
  }

  /** A call that nothing interrupts. */
  function CallAlone(cfg: Config, s: Sys, weight: nat, nodes: real): Sys
    requires cfg.Valid()
  {
    Step(cfg, Step(cfg, Step(cfg, s, Check(0, weight, nodes)), Add(0)), Block(0))
  }

  class Throttler {
    const config: Config
    const store: Store
    var localCounts: map<string, int>
    var blockedRoutes: map<string, int>
    var nodes: real

    ghost predicate Valid()
      reads this
    {
      config.Valid() && forall r :: Read(localCounts, r) >= 0
    }

    /** Is s what module Throttle sees of route r, with no call under way?  How far the
        end of a span has got stands with the method that is ending it. */
    ghost predicate Shows(r: string, s: Sys)
      reads this, store
    {
      && s.count == Read(localCounts, r) && s.blockedUntil == Read(blockedRoutes, r)
      && (forall n :: At(s.store, n) == Total(r, n)) && s.pending == map[]
    }

    function Total(r: string, n: int): int
      reads store
    {
      if (r, n) in store.counters then store.counters[(r, n)] else 0
    }

    constructor (config: Config, store: Store)
      requires config.Valid()
      ensures Valid() && this.config == config && this.store == store
      ensures forall r, now :: store.counters == map[] ==> Shows(r, Init(config, now))
    {
      this.config, this.store := config, store;
      localCounts, blockedRoutes, nodes := map[], map[], 1.0;
    }

    method BlockRoute(route: string, now: int)
      modifies this`blockedRoutes
      ensures blockedRoutes == old(blockedRoutes)[route := now + config.cooldown]
    {
      blockedRoutes := blockedRoutes[route := now + config.cooldown];
    }

    /** Would a call be let through now? */
    predicate Lets(route: string, weight: nat, now: int)
      reads this
      requires config.Valid()
    {
      now >= Read(blockedRoutes, route) && Read(localCounts, route) + weight <= config.Threshold(nodes)
    }

    /** Counts the weight first and asks afterwards: denied weight is counted too. */
    method Increment(route: string, weight: nat, now: int) returns (ok: bool)
      requires Valid() && now >= 0
      modifies this`localCounts, this`blockedRoutes
      ensures Valid()
      ensures ok == old(Lets(route, weight, now))
      ensures ok <==>
        && now >= old(Read(blockedRoutes, route))
        && (old(Read(localCounts, route)) + weight) as real * Nodes(nodes) <= config.max as real
      ensures localCounts == if now < old(Read(blockedRoutes, route)) then old(localCounts)
                             else old(localCounts)[route := old(Read(localCounts, route)) + weight]
      ensures blockedRoutes == if ok || now < old(Read(blockedRoutes, route)) then old(blockedRoutes)
                               else old(blockedRoutes)[route := now + config.cooldown]
    {
      if route in blockedRoutes && now < blockedRoutes[route] {
        return false;
      }
      var localThreshold := config.Threshold(nodes);
      ThresholdIsShare(config, Read(localCounts, route) + weight, nodes);
      localCounts := localCounts[route := Read(localCounts, route) + weight];
      assert Valid() by { assert forall r :: Read(localCounts, r) >= old(Read(localCounts, r)); }
      if localCounts[route] > localThreshold {
        BlockRoute(route, now);
        return false;
      }
      return true;
    }

    /** The same call, read as the protocol's three steps on its own route; what other
        routes see does not change. */
    method IncrementAndCheck(route: string, weight: nat, now: int) returns (ok: bool)
      requires Valid() && now >= 0
      modifies this`localCounts, this`blockedRoutes
      ensures Valid() && ok == old(Lets(route, weight, now))
      ensures ok <==>
        && now >= old(Read(blockedRoutes, route))
        && (old(Read(localCounts, route)) + weight) as real * Nodes(nodes) <= config.max as real
      ensures ok ==> Read(localCounts, route) == old(Read(localCounts, route)) + weight <= config.max
      ensures forall r :: r != route ==> Read(localCounts, r) == old(Read(localCounts, r))
      ensures forall s :: old(Shows(route, s)) && s.now == now ==>
        Shows(route, CallAlone(config, s, weight, nodes)) && ok == CallAdmits(config, s, weight, nodes)
      ensures forall r, s :: r != route && old(Shows(r, s)) ==> Shows(r, s)
    {
      ok := Increment(route, weight, now);
      forall s | old(Shows(route, s)) && s.now == now
        ensures Shows(route, CallAlone(config, s, weight, nodes)) && ok == CallAdmits(config, s, weight, nodes)
      {
        CallIsThreeSteps(config, s, weight, nodes);
      }
    }

    /** The swap at the end of a span. */
    method SwapCounts() returns (counts: map<string, int>)
      requires Valid()
      modifies this`localCounts
      ensures Valid() && counts == old(localCounts) && localCounts == map[]
      ensures forall r, s :: old(Shows(r, s)) && s.flush.Idle? ==>
        Shows(r, Step(config, s, Swap)) && Step(config, s, Swap).flush == Swapped(Read(counts, r), config.Key(s.tick))
    {
      counts := localCounts;
      localCounts := map[];
    }

    method CleanupBlockedRoutes(now: int)
      requires config.Valid()
      modifies this`blockedRoutes
      ensures forall r :: Read(blockedRoutes, r) ==
                if now > old(Read(blockedRoutes, r)) then 0 else old(Read(blockedRoutes, r))
      ensures forall r, s :: old(Shows(r, s)) && s.now == now ==> Shows(r, Step(config, s, Clean))
    {
      var todo := blockedRoutes.Keys;
      ghost var was := blockedRoutes;
      while todo != {}
        invariant forall r :: r in todo ==> r in blockedRoutes
        invariant forall r :: Read(blockedRoutes, r) ==
                    if r in was && r !in todo && now > was[r] then 0 else Read(was, r)
        decreases todo
      {
        var r :| r in todo;
        if now > blockedRoutes[r] {
          blockedRoutes := blockedRoutes - {r};
        }
        todo := todo - {r};
      }
    }

    /** The increments of one flush, route by route in no fixed order; nothing gets
        through if the store cannot be reached. */
    method FlushCounts(counts: map<string, int>, n: int, reachable: bool)
      requires config.Valid()
      modifies store
      ensures forall r, i :: Total(r, i) == old(Total(r, i)) + if reachable && i == n then Read(counts, r) else 0
      ensures forall r, s :: old(Shows(r, s)) && s.flush == Swapped(Read(counts, r), n) ==>
        && Shows(r, Step(config, s, Flush(reachable)))
        && Step(config, s, Flush(reachable)).flush == AfterFlush(counts, r, n, reachable)
    {
      if reachable {
        AddCounts(counts, n);
      }
      assert forall r, i :: Total(r, i) == old(Total(r, i)) + if reachable && i == n then Read(counts, r) else 0;
      forall r, s | old(Shows(r, s)) && s.flush == Swapped(Read(counts, r), n)
        ensures Shows(r, Step(config, s, Flush(reachable)))
        ensures Step(config, s, Flush(reachable)).flush == AfterFlush(counts, r, n, reachable)
      {
        assert At(s.store, n) == old(Total(r, n));
        assert At(Step(config, s, Flush(reachable)).store, n) == Total(r, n);
      }
    }

    method AddCounts(counts: map<string, int>, n: int)
      modifies store
      ensures forall r, i :: Total(r, i) == old(Total(r, i)) + if i == n then Read(counts, r) else 0
    {
      var todo := counts.Keys;
      assert forall r :: r !in todo ==> Read(counts, r) == 0;
      while todo != {}
        invariant todo <= counts.Keys
        invariant forall r, i :: Total(r, i) == old(Total(r, i)) + if i == n && r !in todo then Read(counts, r) else 0
        decreases todo
      {
        var r :| r in todo;
        if counts[r] != 0 {
          store.counters := store.counters[(r, n) := Total(r, n) + counts[r]];
        }
        todo := todo - {r};
      }
    }

    /** Is route r over the limit after the flush? */
    predicate IsOver(counts: map<string, int>, r: string, n: int, reachable: bool)
      reads store
      requires config.Valid()
    {
      OverLimit(config, Read(counts, r), Total(r, n), reachable)
    }

    function AfterFlush(counts: map<string, int>, r: string, n: int, reachable: bool): Flush
      reads store
      requires config.Valid()
    {
      if IsOver(counts, r, n, reachable) then Over else Idle
    }

    /** Blocks the routes whose interval total, or without the store whose own count,
        is over the limit, each in a step of its own. */
    method BlockRoutesOver(counts: map<string, int>, n: int, now: int, reachable: bool)
      requires config.Valid()
      modifies this`blockedRoutes
      ensures forall r :: Read(blockedRoutes, r) ==
                if Read(counts, r) != 0 &&
                   (if reachable then Total(r, n) > config.max else Read(counts, r) > config.max / config.spans)
                then now + config.cooldown else old(Read(blockedRoutes, r))
      ensures forall r, s :: old(Shows(r, s)) && s.now == now && s.flush == AfterFlush(counts, r, n, reachable) ==>
        Shows(r, Step(config, s, BlockOver))
    {
      var todo := counts.Keys;
      while todo != {}
        invariant todo <= counts.Keys
        invariant forall r :: Read(blockedRoutes, r) ==
                    if r !in todo && IsOver(counts, r, n, reachable) then now + config.cooldown
                    else old(Read(blockedRoutes, r))
        decreases todo
      {
        var r :| r in todo;
        if counts[r] != 0 {
          if if reachable then Total(r, n) > config.max else counts[r] > config.max / config.spans {
            BlockRoute(r, now);
          }
        }
        todo := todo - {r};
      }
    }

    /** The end of span `tick` when nothing comes between its steps.  `estimate` is what
        the node estimation makes of the numbers. */
    method ProcessSpan(tick: int, estimate: real, reachable: bool)
      requires Valid()
      modifies this`localCounts, this`blockedRoutes, this`nodes, store
      ensures Valid() && localCounts == map[] && nodes == estimate
      ensures forall r, s :: old(Shows(r, s)) && s.tick == tick && s.flush.Idle? ==>
        Shows(r, SpanEnd(config, s, reachable))
    {
      var counts := SwapCounts();
      var now := config.StartOf(tick + 1);
      var n := now / config.interval;
      FinishSpan(counts, n, now, estimate, reachable);
    }

    /** What follows the swap. */
    method FinishSpan(counts: map<string, int>, n: int, now: int, estimate: real, reachable: bool)
      requires Valid()
      modifies this`blockedRoutes, this`nodes, store
      ensures nodes == estimate
      ensures forall r, s :: old(Shows(r, s)) && s.now == now && s.flush == Swapped(Read(counts, r), n) ==>
        Shows(r, Step(config, Step(config, Step(config, s, Clean), Flush(reachable)), BlockOver))
    {
      CleanupBlockedRoutes(now);
      nodes := estimate;
      FlushCounts(counts, n, reachable);
      BlockRoutesOver(counts, n, now, reachable);
    }
  }

  /** Alone, the call is the three steps: pass the check, count, and block if over. */
  lemma {:induction false} CallIsThreeSteps(cfg: Config, s: Sys, weight: nat, nodes: real)
    requires cfg.Valid() && s.pending == map[]
    ensures var t := CallAlone(cfg, s, weight, nodes);
      var ok := s.now >= s.blockedUntil && s.count + weight <= cfg.Threshold(nodes);
      && t == s.(count := if s.now < s.blockedUntil then s.count else s.count + weight,
                 blockedUntil := if ok || s.now < s.blockedUntil then s.blockedUntil else s.now + cfg.cooldown)
      && CallAdmits(cfg, s, weight, nodes) == ok
  {
    if s.now >= s.blockedUntil {
      var p := Passed(weight, cfg.Threshold(nodes));
      assert s.pending[0 := p][0 := Exceeded] - {0} == map[] && s.pending[0 := p] - {0} == map[];
    }
  }
}
