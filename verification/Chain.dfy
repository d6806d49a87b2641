/** Requests passing a chain of throttlers (proxy/internal/throttling/hierarchical.go),
    any number at once: a request takes the three steps of a call on one level after
    the other, and every level ends its own spans in between.  What a level does for
    one key is the protocol of module Throttle. */
module Chain {
  import opened Throttle
  import IntervalBound

  /** `cost` is what a request counts for on the level. */
  datatype Level = Level(cfg: Config, cost: nat)

  predicate Valid(levels: seq<Level>) {
    forall i :: 0 <= i < |levels| ==> levels[i].cfg.Valid()
  }

  /** `keys` are what the levels' key extractors find in the request, `spans` are the
      spans in which the levels passed so far have admitted it. */
  datatype Request = Request(keys: seq<string>, spans: seq<int>, denied: bool)

  /** views[i](key) is what level i holds for a key. */
  datatype World = World(views: seq<string -> Sys>, requests: seq<Request>)

  datatype Turn = AskBlocked(nodes: real) | CountIn | BlockKey

  datatype Move =
    | Arrive(keys: seq<string>)
    | Proceed(request: nat, turn: Turn)
    | OnLevel(level: nat, e: Event)
    | OnKey(level: nat, key: string, e: Event)

  /** What level l holds for a key. */
  function View(w: World, l: nat, key: string): Sys
    requires l < |w.views|
  {
    w.views[l](key)
  }

  function Begin(levels: seq<Level>, now: int): World
    requires Valid(levels)
  {
    World(seq(|levels|, i requires 0 <= i < |levels| => Beginning(levels[i].cfg, now)), [])
  }

  function Beginning(cfg: Config, now: int): string -> Sys
    requires cfg.Valid()
  {
    (key: string) => Init(cfg, now)
  }

  /** A turn of request j as an event of the level it stands at. */
  function AsEvent(turn: Turn, j: nat, cost: nat): Event {
    match turn
    case AskBlocked(nodes) => Check(j, cost, nodes)
    case CountIn => Add(j)
    case BlockKey => Block(j)
  }

  predicate Underway(levels: seq<Level>, w: World, j: nat) {
    && j < |w.requests| && !w.requests[j].denied && |w.views| == |levels|
    && |w.requests[j].spans| < |levels| == |w.requests[j].keys|
  }

  /** The event that a move is for one key of one level, if it concerns that. */
  ghost predicate Concerns(levels: seq<Level>, w: World, m: Move, i: nat, key: string)
    requires Valid(levels) && i < |levels|
  {
    match m
    case Arrive(_) => false
    case Proceed(j, turn) =>
      && Underway(levels, w, j) && |w.requests[j].spans| == i && w.requests[j].keys[i] == key
      && Enabled(levels[i].cfg, w.views[i](key), AsEvent(turn, j, levels[i].cost))
    case OnLevel(l, e) =>
      && l == i && |w.views| == |levels| && (e.Advance? || e.Swap? || e.Clean? || e.Flush?)
      && forall k :: Enabled(levels[i].cfg, View(w, i, k), e)
    case OnKey(l, k, e) => l == i && k == key && (e.BlockOver? || e.Remote?)
  }

  function EventOf(levels: seq<Level>, m: Move, i: nat): Event
    requires i < |levels| && !m.Arrive?
  {
    match m
    case Proceed(j, turn) => AsEvent(turn, j, levels[i].cost)
    case OnLevel(_, e) => e
    case OnKey(_, _, e) => e
  }

  ghost function ViewAfter(levels: seq<Level>, w: World, m: Move, i: nat): string -> Sys
    requires Valid(levels) && i < |levels| == |w.views|
  {
    (key: string) =>
      if Concerns(levels, w, m, i, key) then Step(levels[i].cfg, w.views[i](key), EventOf(levels, m, i))
      else w.views[i](key)
  }

  /** Where request j stands after its turn. */
  function AfterTurn(levels: seq<Level>, w: World, j: nat, turn: Turn): Request
    requires Valid(levels) && Underway(levels, w, j)
  {
    var r := w.requests[j];
    var i := |r.spans|;
    var s := w.views[i](r.keys[i]);
    if !Enabled(levels[i].cfg, s, AsEvent(turn, j, levels[i].cost)) then r
    else match turn
      case AskBlocked(_) => r.(denied := s.now < s.blockedUntil)
      case CountIn => if Admits(s, s.pending[j]) then r.(spans := r.spans + [s.tick]) else r
      case BlockKey => r.(denied := true)
  }

  ghost function After(levels: seq<Level>, w: World, m: Move): World
    requires Valid(levels) && |w.views| == |levels|
  {
    World(
      seq(|levels|, i requires 0 <= i < |levels| => ViewAfter(levels, w, m, i)),
      match m
      case Arrive(keys) => if |keys| == |levels| then w.requests + [Request(keys, [], false)] else w.requests
      case Proceed(j, turn) =>
        if Underway(levels, w, j) then w.requests[j := AfterTurn(levels, w, j, turn)] else w.requests
      case _ => w.requests)
  }

  ghost function Reach(levels: seq<Level>, now: int, ms: seq<Move>): (w: World)
    requires Valid(levels)
    ensures |w.views| == |levels|
  {
    if ms == [] then Begin(levels, now)
    else After(levels, Reach(levels, now, ms[..|ms| - 1]), ms[|ms| - 1])
  }

  /** The run of one key on one level. */
  ghost function RunOf(levels: seq<Level>, now: int, ms: seq<Move>, i: nat, key: string): seq<Event>
    requires Valid(levels) && i < |levels|
  {
    if ms == [] then []
    else
      var m, w := ms[|ms| - 1], Reach(levels, now, ms[..|ms| - 1]);
      RunOf(levels, now, ms[..|ms| - 1], i, key) +
        if Concerns(levels, w, m, i, key) then [EventOf(levels, m, i)] else []
  }

  /** Each key of each level makes a run of the protocol. */
  lemma {:induction false} ViewIsARun(levels: seq<Level>, now: int, ms: seq<Move>, i: nat, key: string)
    requires Valid(levels) && i < |levels|
    ensures Reach(levels, now, ms).views[i](key) ==
            Run(levels[i].cfg, Init(levels[i].cfg, now), RunOf(levels, now, ms, i, key))
  {
    if ms != [] {
      var n := |ms| - 1;
      var m, w, es := ms[n], Reach(levels, now, ms[..n]), RunOf(levels, now, ms[..n], i, key);
      ViewIsARun(levels, now, ms[..n], i, key);
      if Concerns(levels, w, m, i, key) {
        assert (es + [EventOf(levels, m, i)])[..|es|] == es;
      } else {
        assert es + [] == es;
      }
    }
  }

  // --------------------------------------------------------------- conservation

  /** Did level i admit the request under this key in span k? */
  predicate PassedAt(r: Request, i: nat, key: string, k: int) {
    i < |r.spans| && i < |r.keys| && r.keys[i] == key && r.spans[i] == k
  }

  /** The weight of the requests that got past level i under a key in span k. */
  function PassedWeight(rs: seq<Request>, cost: nat, i: nat, key: string, k: int): nat {
    if rs == [] then 0
    else PassedWeight(rs[..|rs| - 1], cost, i, key, k) + if PassedAt(rs[|rs| - 1], i, key, k) then cost else 0
  }

  /** And of those among them that were accepted in the end, by all n levels. */
  function AcceptedWeight(rs: seq<Request>, n: nat, cost: nat, i: nat, key: string, k: int): nat {
    if rs == [] then 0
    else
      AcceptedWeight(rs[..|rs| - 1], n, cost, i, key, k) +
        if |rs[|rs| - 1].spans| == n && PassedAt(rs[|rs| - 1], i, key, k) then cost else 0
  }

  lemma {:induction false} PassedUpdate(rs: seq<Request>, j: nat, r: Request, cost: nat, i: nat, key: string, k: int)
    requires j < |rs|
    ensures PassedWeight(rs[j := r], cost, i, key, k) ==
            PassedWeight(rs, cost, i, key, k) - (if PassedAt(rs[j], i, key, k) then cost else 0)
                                              + (if PassedAt(r, i, key, k) then cost else 0)
  {
    var n := |rs| - 1;
    if j < n {
      PassedUpdate(rs[..n], j, r, cost, i, key, k);
      assert rs[j := r][..n] == rs[..n][j := r];
    } else {
      assert rs[j := r][..n] == rs[..n];
    }
  }

  /** A call waiting on a level costs what the level charges. */
  ghost predicate Charged(s: Sys, cost: nat) {
    forall id :: id in s.pending && s.pending[id].Passed? ==> s.pending[id].weight == cost
  }

  lemma {:induction false} AllCharged(levels: seq<Level>, now: int, ms: seq<Move>, i: nat, key: string)
    requires Valid(levels) && i < |levels|
    ensures Charged(Reach(levels, now, ms).views[i](key), levels[i].cost)
  {
    if ms != [] {
      AllCharged(levels, now, ms[..|ms| - 1], i, key);
    }
  }

  /** What one turn adds to the weight that got past a level. */
  lemma {:induction false} TurnPasses(levels: seq<Level>, w: World, j: nat, turn: Turn, i: nat, key: string, k: int)
    requires Valid(levels) && i < |levels| && Underway(levels, w, j) && Charged(w.views[i](key), levels[i].cost)
    ensures var r, r' := w.requests[j], AfterTurn(levels, w, j, turn);
      (if PassedAt(r', i, key, k) then levels[i].cost else 0) ==
        (if PassedAt(r, i, key, k) then levels[i].cost else 0) +
        if Concerns(levels, w, Proceed(j, turn), i, key) && w.views[i](key).tick == k
        then Admitting(levels[i].cfg, w.views[i](key), AsEvent(turn, j, levels[i].cost)) else 0
  {
  }

  /** What one move adds to it. */
  lemma {:induction false} MovePasses(levels: seq<Level>, w: World, m: Move, i: nat, key: string, k: int)
    requires Valid(levels) && i < |levels| == |w.views| && Charged(w.views[i](key), levels[i].cost)
    ensures PassedWeight(After(levels, w, m).requests, levels[i].cost, i, key, k) ==
            PassedWeight(w.requests, levels[i].cost, i, key, k) +
            if Concerns(levels, w, m, i, key) && w.views[i](key).tick == k
            then Admitting(levels[i].cfg, w.views[i](key), EventOf(levels, m, i)) else 0
  {
    match m
    case Arrive(keys) =>
      var r := Request(keys, [], false);
      assert (w.requests + [r])[..|w.requests|] == w.requests;
    case Proceed(j, turn) =>
      if Underway(levels, w, j) {
        TurnPasses(levels, w, j, turn, i, key, k);
        PassedUpdate(w.requests, j, AfterTurn(levels, w, j, turn), levels[i].cost, i, key, k);
      }
    case _ =>
  }

  /** Conservation under every interleaving: what a level admits in a span under a key
      is exactly the weight of the requests that got past it then. */
  lemma {:induction false} PassedIsAdmitted(levels: seq<Level>, now: int, ms: seq<Move>, i: nat, key: string, k: int)
    requires Valid(levels) && i < |levels|
    ensures PassedWeight(Reach(levels, now, ms).requests, levels[i].cost, i, key, k) ==
            Admitted(levels[i].cfg, Init(levels[i].cfg, now), RunOf(levels, now, ms, i, key), k)
  {
    if ms != [] {
      var n := |ms| - 1;
      var m, w, es := ms[n], Reach(levels, now, ms[..n]), RunOf(levels, now, ms[..n], i, key);
      PassedIsAdmitted(levels, now, ms[..n], i, key, k);
      ViewIsARun(levels, now, ms[..n], i, key);
      AllCharged(levels, now, ms[..n], i, key);
      MovePasses(levels, w, m, i, key, k);
      if Concerns(levels, w, m, i, key) {
        assert (es + [EventOf(levels, m, i)])[..|es|] == es;
      } else {
        assert es + [] == es;
      }
    }
  }

  /** How many requests got past level i under a key in span k. */
  function PassedCount(rs: seq<Request>, i: nat, key: string, k: int): nat {
    if rs == [] then 0
    else PassedCount(rs[..|rs| - 1], i, key, k) + if PassedAt(rs[|rs| - 1], i, key, k) then 1 else 0
  }

  lemma {:induction false} PassedCosts(rs: seq<Request>, cost: nat, i: nat, key: string, k: int)
    requires cost > 0
    ensures PassedCount(rs, i, key, k) <= PassedWeight(rs, cost, i, key, k)
  {
    if rs != [] {
      PassedCosts(rs[..|rs| - 1], cost, i, key, k);
    }
  }

  /** If every request costs something, no more get past than the limit says. */
  lemma {:induction false} PassedWithinLimit(levels: seq<Level>, now: int, ms: seq<Move>, i: nat, key: string, k: int)
    requires Valid(levels) && i < |levels| && levels[i].cost > 0
    ensures PassedCount(Reach(levels, now, ms).requests, i, key, k) <= levels[i].cfg.max
  {
    PassedCosts(Reach(levels, now, ms).requests, levels[i].cost, i, key, k);
    PassedIsAdmitted(levels, now, ms, i, key, k);
    SpanAdmission(levels[i].cfg, now, RunOf(levels, now, ms, i, key), k);
  }

  lemma {:induction false} AcceptedAmongPassed(rs: seq<Request>, n: nat, cost: nat, i: nat, key: string, k: int)
    ensures AcceptedWeight(rs, n, cost, i, key, k) <= PassedWeight(rs, cost, i, key, k)
  {
    if rs != [] {
      AcceptedAmongPassed(rs[..|rs| - 1], n, cost, i, key, k);
    }
  }

  /** Accepted is what has got past all n levels: all that passed one if all have, and
      nothing if none has. */
  lemma {:induction false} AcceptedAllOrNone(rs: seq<Request>, n: nat, cost: nat, i: nat, key: string, k: int)
    ensures (forall j :: 0 <= j < |rs| ==> |rs[j].spans| == n) ==>
      AcceptedWeight(rs, n, cost, i, key, k) == PassedWeight(rs, cost, i, key, k)
    ensures (forall j :: 0 <= j < |rs| ==> |rs[j].spans| != n) ==> AcceptedWeight(rs, n, cost, i, key, k) == 0
  {
    if rs != [] {
      AcceptedAllOrNone(rs[..|rs| - 1], n, cost, i, key, k);
      assert forall j :: 0 <= j < |rs| - 1 ==> rs[..|rs| - 1][j] == rs[j];
    }
  }

  /** However requests and ticks interleave: of the requests accepted by the whole
      chain, those that a level counted under one key in one of its spans stay within
      that level's own limit. */
  lemma {:induction false} AcceptedWithinEveryLimit(levels: seq<Level>, now: int, ms: seq<Move>, i: nat,
                                                    key: string, k: int)
    requires Valid(levels) && i < |levels|
    ensures AcceptedWeight(Reach(levels, now, ms).requests, |levels|, levels[i].cost, i, key, k) <= levels[i].cfg.max
  {
    AcceptedAmongPassed(Reach(levels, now, ms).requests, |levels|, levels[i].cost, i, key, k);
    PassedIsAdmitted(levels, now, ms, i, key, k);
    SpanAdmission(levels[i].cfg, now, RunOf(levels, now, ms, i, key), k);
  }

  /** The accepted weight that a level counted under a key in spans lo to hi - 1. */
  function AcceptedSum(rs: seq<Request>, n: nat, cost: nat, i: nat, key: string, lo: int, hi: int): nat
    decreases hi - lo
  {
    if hi <= lo then 0
    else AcceptedSum(rs, n, cost, i, key, lo, hi - 1) + AcceptedWeight(rs, n, cost, i, key, hi - 1)
  }

  lemma {:induction false} AcceptedSumAdmitted(levels: seq<Level>, now: int, ms: seq<Move>, i: nat, key: string,
                                               lo: int, hi: int)
    requires Valid(levels) && i < |levels|
    ensures var cfg := levels[i].cfg;
      AcceptedSum(Reach(levels, now, ms).requests, |levels|, levels[i].cost, i, key, lo, hi) <=
      IntervalBound.AdmittedSum(cfg, Init(cfg, now), RunOf(levels, now, ms, i, key), lo, hi)
    decreases hi - lo
  {
    if lo < hi {
      AcceptedSumAdmitted(levels, now, ms, i, key, lo, hi - 1);
      AcceptedAmongPassed(Reach(levels, now, ms).requests, |levels|, levels[i].cost, i, key, hi - 1);
      PassedIsAdmitted(levels, now, ms, i, key, hi - 1);
    }
  }

  /** And the interval bound of a single throttler carries over to what the whole chain
      accepts, for each level and each of its keys, under what is assumed of the calls there. */
  lemma {:induction false} AcceptedWithinInterval(levels: seq<Level>, now: int, ms: seq<Move>, i: nat, key: string,
                                                  calls: IntervalBound.Calls, c: nat, n: int)
    requires Valid(levels) && i < |levels|
    requires var cfg := levels[i].cfg;
      && IntervalBound.Even(cfg) && IntervalBound.Cools(cfg, c)
      && IntervalBound.Obeys(cfg, Init(cfg, now), RunOf(levels, now, ms, i, key), calls)
      && Init(cfg, now).tick <= IntervalBound.First(cfg, n)
    ensures var cfg := levels[i].cfg; var lo := IntervalBound.First(cfg, n);
      AcceptedSum(Reach(levels, now, ms).requests, |levels|, levels[i].cost, i, key, lo, lo + cfg.spans) <=
      cfg.max * (1 + IntervalBound.Slots(cfg, cfg.spans - 1, calls, c))
  {
    var cfg := levels[i].cfg;
    var lo := IntervalBound.First(cfg, n);
    AcceptedSumAdmitted(levels, now, ms, i, key, lo, lo + cfg.spans);
    IntervalBound.WholeIntervalAdmission(cfg, now, RunOf(levels, now, ms, i, key), calls, c, n);
  }

  /** A request is accepted once every level has admitted it, each in one span. */
  lemma {:induction false} AcceptedEverywhere(levels: seq<Level>, now: int, ms: seq<Move>, j: nat)
    requires Valid(levels) && j < |Reach(levels, now, ms).requests|
    ensures var r := Reach(levels, now, ms).requests[j];
      && |r.keys| == |levels| && |r.spans| <= |levels| && (|r.spans| == |levels| ==> !r.denied)
      && forall i :: 0 <= i < |r.spans| ==> PassedAt(r, i, r.keys[i], r.spans[i])
  {
    var n := |ms| - 1;
    var w := Reach(levels, now, ms[..n]);
    if j < |w.requests| {
      AcceptedEverywhere(levels, now, ms[..n], j);
    }
  }
}
