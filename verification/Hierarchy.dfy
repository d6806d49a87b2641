/** The chain of throttlers that a request passes, as objects
    (proxy/internal/throttling/hierarchical.go).  Here one request passes the levels with
    nothing in between; module Chain lets requests and ticks interleave. */
module Hierarchy {
  import opened Throttler
  import Chain

  /** The parts of a request that a key extractor may look at. */
  type Request = string

  datatype Level = Level(name: string, keyOf: Request -> string, throttler: Throttler, weight: nat) {
    /** Zero stands for the ordinary cost of one. */
    function Cost(): (cost: nat)
      ensures cost > 0 && (weight > 0 ==> cost == weight) && cost <= weight + 1
    {
      if weight == 0 then 1 else weight
    }
  }

  class HierarchicalThrottler {
    const levels: seq<Level>

    ghost predicate Valid()
      reads Throttlers()
    {
      && (forall i :: 0 <= i < |levels| ==> levels[i].throttler.Valid())
      && (forall i, j :: 0 <= i < j < |levels| ==> levels[i].throttler != levels[j].throttler)
    }

    ghost function Throttlers(): set<Throttler> {
      set i | 0 <= i < |levels| :: levels[i].throttler
    }

    constructor (levels: seq<Level>)
      ensures this.levels == levels
    {
      this.levels := levels;
    }

    /** A level has taken the three steps of the protocol for this request's key. */
    twostate predicate Took(l: Level, r: Request, now: int)
      requires l.throttler.config.Valid()
      reads l.throttler, l.throttler.store
    {
      forall s :: old(l.throttler.Shows(l.keyOf(r), s)) && s.now == now ==>
        l.throttler.Shows(l.keyOf(r), CallAlone(l.throttler.config, s, l.Cost(), l.throttler.nodes))
    }

    /** A level has let the request through: it has counted the weight, or one more if
        that is zero, and what it has counted is within its limit. */
    twostate predicate Counted(l: Level, r: Request)
      reads l.throttler
    {
      var count := Read(l.throttler.localCounts, l.keyOf(r));
      && count == old(Read(l.throttler.localCounts, l.keyOf(r))) + (if l.weight == 0 then 1 else l.weight)
      && count <= l.throttler.config.max
    }

    /** Its key is not blocked, and with the weight counted its share is not exceeded. */
    predicate HasRoom(l: Level, r: Request, now: int)
      reads l.throttler
    {
      var count := Read(l.throttler.localCounts, l.keyOf(r)) + (if l.weight == 0 then 1 else l.weight);
      && now >= Read(l.throttler.blockedRoutes, l.keyOf(r))
      && count as real * Throttle.Nodes(l.throttler.nodes) <= l.throttler.config.max as real
    }

    twostate predicate LetThrough(l: Level, r: Request, now: int)
      requires l.throttler.config.Valid()
      reads l.throttler, l.throttler.store
    {
      old(HasRoom(l, r, now)) && Counted(l, r) && Took(l, r, now)
    }

    twostate predicate Denied(l: Level, r: Request, now: int)
      requires l.throttler.config.Valid()
      reads l.throttler, l.throttler.store
    {
      !old(HasRoom(l, r, now)) && Took(l, r, now)
    }

    /** One level's decision; the other levels do not notice. */
    method PassLevel(i: nat, r: Request, now: int) returns (allowed: bool)
      requires Valid() && now >= 0 && i < |levels|
      modifies levels[i].throttler
      ensures Valid() && if allowed then LetThrough(levels[i], r, now) else Denied(levels[i], r, now)
      ensures levels[i].throttler.nodes == old(levels[i].throttler.nodes)
    {
      var l := levels[i];
      allowed := l.throttler.IncrementAndCheck(l.keyOf(r), l.Cost(), now);
      forall j | 0 <= j < |levels| && j != i ensures levels[j].throttler.Valid() {
        assert levels[j].throttler != l.throttler;
      }
    }

    /** The loop over the levels, up to the first that denies. */
    method PassLevels(r: Request, now: int) returns (passed: nat)
      requires Valid() && now >= 0
      modifies Throttlers()
      ensures Valid() && passed <= |levels|
      ensures forall j :: 0 <= j < passed ==> LetThrough(levels[j], r, now)
      ensures passed < |levels| ==> Denied(levels[passed], r, now)
      ensures forall j :: passed < j < |levels| ==> unchanged(levels[j].throttler)
    {
      passed := 0;
      while passed < |levels|
        invariant passed <= |levels| && Valid()
        invariant forall j :: 0 <= j < passed ==> LetThrough(levels[j], r, now)
        invariant forall j :: passed <= j < |levels| ==> unchanged(levels[j].throttler)
      {
        assert forall j :: 0 <= j < |levels| && j != passed ==> levels[j].throttler != levels[passed].throttler;
        var allowed := PassLevel(passed, r, now);
        if !allowed {
          return;
        }
        passed := passed + 1;
      }
    }

    /** A request is accepted exactly if every level has room for it.  The first levels
        have let it through and counted it, the next one, if any, has denied it, and
        those after it have not seen it. */
    method CheckRequest(r: Request, now: int) returns (ok: bool, ghost passed: nat)
      requires Valid() && now >= 0
      modifies Throttlers()
      ensures Valid() && passed <= |levels|
      ensures ok <==> forall i :: 0 <= i < |levels| ==> old(HasRoom(levels[i], r, now))
      ensures ok <==> passed == |levels|
      ensures forall j :: 0 <= j < passed ==> LetThrough(levels[j], r, now)
      ensures passed < |levels| ==> Denied(levels[passed], r, now)
      ensures forall j :: passed < j < |levels| ==> unchanged(levels[j].throttler)
    {
      var count := PassLevels(r, now);
      passed := count;
      ok := count == |levels|;
      if ok {
        assert forall i :: 0 <= i < |levels| ==> LetThrough(levels[i], r, now);
      } else {
        assert Denied(levels[count], r, now);
      }
    }
  }

  /** The chain of these levels as module Chain has it. */
  function InChain(levels: seq<Level>): seq<Chain.Level> {
    seq(|levels|, i requires 0 <= i < |levels| => Chain.Level(levels[i].throttler.config, levels[i].Cost()))
  }

  /** However requests and ticks interleave, no more requests than its limit get past a
      level under one key between two of its swaps, whatever the weights are. */
  lemma {:induction false} RequestsWithinLimit(levels: seq<Level>, now: int, ms: seq<Chain.Move>, i: nat,
                                               key: string, k: int)
    requires i < |levels| && forall l :: 0 <= l < |levels| ==> levels[l].throttler.config.Valid()
    ensures Chain.Valid(InChain(levels))
    ensures Chain.PassedCount(Chain.Reach(InChain(levels), now, ms).requests, i, key, k) <=
            levels[i].throttler.config.max
  {
    Chain.PassedWithinLimit(InChain(levels), now, ms, i, key, k);
  }
}
