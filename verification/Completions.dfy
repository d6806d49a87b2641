/** Counting accepted requests when they get past the last level of the chain, instead
    of when a level admits them: for which chains a level's limit bounds that too. */
module Completions {
  import opened Throttle
  import opened Chain

  /** The weight, at level i's cost, of the request under its key that a move takes past
      the last level while level i is in span k. */
  ghost function Completing(levels: seq<Level>, w: World, m: Move, i: nat, key: string, k: int): nat
    requires Valid(levels) && i < |levels|
  {
    if m.Proceed? && Underway(levels, w, m.request)
      && |AfterTurn(levels, w, m.request, m.turn).spans| == |levels|
      && w.requests[m.request].keys[i] == key && View(w, i, key).tick == k
    then levels[i].cost else 0
  }

  ghost function Completed(levels: seq<Level>, now: int, ms: seq<Move>, i: nat, key: string, k: int): nat
    requires Valid(levels) && i < |levels|
  {
    if ms == [] then 0
    else
      var before := ms[..|ms| - 1];
      Completed(levels, now, before, i, key, k) +
        Completing(levels, Reach(levels, now, before), ms[|ms| - 1], i, key, k)
  }

  /** In every run, what completes the chain in one span of level i, under one key there,
      stays within that level's limit. */
  ghost predicate KeepsCompletions(levels: seq<Level>, i: nat)
    requires Valid(levels) && i < |levels|
  {
    forall now, ms, key, k :: Completed(levels, now, ms, i, key, k) <= levels[i].cfg.max
  }

  // ------------------------------------------------------ when the limit is kept

  lemma {:induction false} LastLevelCompletes(levels: seq<Level>, w: World, m: Move, i: nat, key: string, k: int)
    requires Valid(levels) && i == |levels| - 1 && |w.views| == |levels| && Charged(View(w, i, key), levels[i].cost)
    ensures Completing(levels, w, m, i, key, k) ==
            if Concerns(levels, w, m, i, key) && View(w, i, key).tick == k
            then Admitting(levels[i].cfg, View(w, i, key), EventOf(levels, m, i)) else 0
  {
  }

  /** At the last level, completing the chain is being admitted. */
  lemma {:induction false} LastLevelAdmits(levels: seq<Level>, now: int, ms: seq<Move>, i: nat, key: string, k: int)
    requires Valid(levels) && i == |levels| - 1
    ensures Completed(levels, now, ms, i, key, k) ==
            Admitted(levels[i].cfg, Init(levels[i].cfg, now), RunOf(levels, now, ms, i, key), k)
  {
    if ms != [] {
      var n := |ms| - 1;
      var m, w, es := ms[n], Reach(levels, now, ms[..n]), RunOf(levels, now, ms[..n], i, key);
      LastLevelAdmits(levels, now, ms[..n], i, key, k);
      ViewIsARun(levels, now, ms[..n], i, key);
      AllCharged(levels, now, ms[..n], i, key);
      LastLevelCompletes(levels, w, m, i, key, k);
      if Concerns(levels, w, m, i, key) {
        assert (es + [EventOf(levels, m, i)])[..|es|] == es;
      } else {
        assert es + [] == es;
      }
    }
  }

  /** No request gets past a level that costs more than its limit. */
  lemma {:induction false} NobodyPasses(levels: seq<Level>, now: int, ms: seq<Move>, l: nat, j: nat)
    requires Valid(levels) && l < |levels| && levels[l].cost > levels[l].cfg.max
    ensures var w := Reach(levels, now, ms); j < |w.requests| ==> |w.requests[j].spans| <= l
  {
    if ms != [] {
      var before := ms[..|ms| - 1];
      var w := Reach(levels, now, before);
      NobodyPasses(levels, now, before, l, j);
      if j < |w.requests| && |w.requests[j].spans| == l && l < |w.requests[j].keys| {
        var key := w.requests[j].keys[l];
        AllCharged(levels, now, before, l, key);
        ViewIsARun(levels, now, before, l, key);
        InitOk(levels[l].cfg, now);
        RunOk(levels[l].cfg, Init(levels[l].cfg, now), RunOf(levels, now, before, l, key));
      }
    }
  }

  lemma {:induction false} NothingCompletes(levels: seq<Level>, now: int, ms: seq<Move>, l: nat, i: nat,
                                            key: string, k: int)
    requires Valid(levels) && l < |levels| && i < |levels| && levels[l].cost > levels[l].cfg.max
    ensures Completed(levels, now, ms, i, key, k) == 0
  {
    if ms != [] {
      var m := ms[|ms| - 1];
      NothingCompletes(levels, now, ms[..|ms| - 1], l, i, key, k);
      if m.Proceed? && Underway(levels, Reach(levels, now, ms[..|ms| - 1]), m.request) {
        NobodyPasses(levels, now, ms, l, m.request);
      }
    }
  }

  lemma {:induction false} FreeOfCharge(levels: seq<Level>, now: int, ms: seq<Move>, i: nat, key: string, k: int)
    requires Valid(levels) && i < |levels| && levels[i].cost == 0
    ensures Completed(levels, now, ms, i, key, k) == 0
  {
    if ms != [] {
      FreeOfCharge(levels, now, ms[..|ms| - 1], i, key, k);
    }
  }

  // ---------------------------------------------------------- getting through

  lemma {:induction false} OneMove(levels: seq<Level>, now: int, ms: seq<Move>, m: Move)
    requires Valid(levels)
    ensures Reach(levels, now, ms + [m]) == After(levels, Reach(levels, now, ms), m)
  {
    assert (ms + [m])[..|ms|] == ms;
  }

  /** A request asks and is admitted by the level it stands at, in one go. */
  function Through(j: nat): seq<Move> { [Proceed(j, AskBlocked(1.0))] + [Proceed(j, CountIn)] }

  /** Nothing stands in the way of request j. */
  ghost predicate Free(levels: seq<Level>, w: World, j: nat)
    requires Valid(levels)
  {
    Underway(levels, w, j) &&
    var i := |w.requests[j].spans|;
    var s := View(w, i, w.requests[j].keys[i]);
    s.now >= s.blockedUntil && s.count + levels[i].cost <= levels[i].cfg.max && j !in s.pending
  }

  /** One turn changes one view and one request. */
  lemma {:induction false} TakesTurn(levels: seq<Level>, w: World, j: nat, turn: Turn)
    requires Valid(levels) && Underway(levels, w, j)
    ensures var w', i := After(levels, w, Proceed(j, turn)), |w.requests[j].spans|;
      var key := w.requests[j].keys[i];
      && w'.requests == w.requests[j := AfterTurn(levels, w, j, turn)]
      && View(w', i, key) == Step(levels[i].cfg, View(w, i, key), AsEvent(turn, j, levels[i].cost))
      && forall l, k :: 0 <= l < |levels| && (l != i || k != key) ==> View(w', l, k) == View(w, l, k)
  {
  }

  lemma {:induction false} GetsThrough(levels: seq<Level>, now: int, ms: seq<Move>, j: nat)
    requires Valid(levels) && Free(levels, Reach(levels, now, ms), j)
    ensures var w, w' := Reach(levels, now, ms), Reach(levels, now, ms + Through(j));
      var r, i := w.requests[j], |w.requests[j].spans|;
      var s := View(w, i, r.keys[i]);
      && w'.requests == w.requests[j := r.(spans := r.spans + [s.tick])]
      && View(w', i, r.keys[i]) == s.(count := s.count + levels[i].cost)
      && forall l, k :: 0 <= l < |levels| && (l != i || k != r.keys[i]) ==> View(w', l, k) == View(w, l, k)
  {
    var w := Reach(levels, now, ms);
    var r, i := w.requests[j], |w.requests[j].spans|;
    var s, cost := View(w, i, r.keys[i]), levels[i].cost;
    assert levels[i].cfg.Threshold(1.0) == levels[i].cfg.max;
    var ask := Proceed(j, AskBlocked(1.0));
    OneMove(levels, now, ms, ask);
    TakesTurn(levels, w, j, AskBlocked(1.0));
    var asked := Reach(levels, now, ms + [ask]);
    assert asked.requests == w.requests;
    OneMove(levels, now, ms + [ask], Proceed(j, CountIn));
    TakesTurn(levels, asked, j, CountIn);
    assert ms + Through(j) == ms + [ask] + [Proceed(j, CountIn)];
    assert s.pending[j := Passed(cost, levels[i].cfg.max)] - {j} == s.pending;
  }

  lemma {:induction false} Arrives(levels: seq<Level>, w: World, keys: seq<string>)
    requires Valid(levels) && |w.views| == |levels| == |keys|
    ensures var w' := After(levels, w, Arrive(keys));
      && w'.requests == w.requests + [Request(keys, [], false)]
      && forall l, k :: 0 <= l < |levels| ==> View(w', l, k) == View(w, l, k)
  {
  }

  lemma {:induction false} Swaps(levels: seq<Level>, w: World, i: nat)
    requires Valid(levels) && |w.views| == |levels| && i < |levels| && forall k :: View(w, i, k).flush.Idle?
    ensures var w' := After(levels, w, OnLevel(i, Swap));
      && w'.requests == w.requests
      && (forall k :: View(w', i, k) == SwapStep(levels[i].cfg, View(w, i, k)))
      && forall l, k :: 0 <= l < |levels| && l != i ==> View(w', l, k) == View(w, l, k)
  {
    assert forall k :: Enabled(levels[i].cfg, View(w, i, k), Swap);
  }

  /** Nothing stands in the way of request j at level l. */
  ghost predicate OpenTo(levels: seq<Level>, w: World, j: nat, l: nat)
    requires Valid(levels) && l < |levels| == |w.views| && j < |w.requests| && |w.requests[j].keys| == |levels|
  {
    var s := View(w, l, w.requests[j].keys[l]);
    s.now >= s.blockedUntil && s.count + levels[l].cost <= levels[l].cfg.max && j !in s.pending
  }

  function Charge(s: Sys, cost: nat): Sys {
    s.(count := s.count + cost)
  }

  /** What request j leaves when it has passed its levels up to `upto`. */
  ghost predicate HasPassed(levels: seq<Level>, w: World, w': World, j: nat, upto: nat)
    requires Valid(levels) && |levels| == |w.views| == |w'.views|
    requires j < |w.requests| && |w.requests[j].keys| == |levels|
  {
    var r := w.requests[j];
    && |w'.requests| == |w.requests|
    && (forall q :: 0 <= q < |w.requests| && q != j ==> w'.requests[q] == w.requests[q])
    && w'.requests[j].keys == r.keys && !w'.requests[j].denied && |w'.requests[j].spans| == upto
    && (forall l :: |r.spans| <= l < upto && l < |levels| ==>
          View(w', l, r.keys[l]) == Charge(View(w, l, r.keys[l]), levels[l].cost))
    && (forall l, k :: 0 <= l < |levels| && !(|r.spans| <= l < upto && k == r.keys[l]) ==>
          View(w', l, k) == View(w, l, k))
  }

  lemma {:induction false} PassOne(levels: seq<Level>, now: int, ms: seq<Move>, j: nat)
    requires Valid(levels)
    requires var w := Reach(levels, now, ms);
      && j < |w.requests| && |w.requests[j].keys| == |levels| && !w.requests[j].denied
      && |w.requests[j].spans| < |levels| && OpenTo(levels, w, j, |w.requests[j].spans|)
    ensures var w := Reach(levels, now, ms);
      HasPassed(levels, w, Reach(levels, now, ms + Through(j)), j, |w.requests[j].spans| + 1)
  {
    GetsThrough(levels, now, ms, j);
  }

  lemma {:induction false} ThenHasPassed(levels: seq<Level>, w: World, w1: World, w2: World, j: nat, upto: nat)
    requires Valid(levels) && |levels| == |w.views| == |w1.views| == |w2.views|
    requires j < |w.requests| && |w.requests[j].keys| == |levels| && |w.requests[j].spans| < upto
    requires HasPassed(levels, w, w1, j, |w.requests[j].spans| + 1) && HasPassed(levels, w1, w2, j, upto)
    ensures HasPassed(levels, w, w2, j, upto)
  {
  }

  lemma {:induction false} Pass(levels: seq<Level>, now: int, ms: seq<Move>, j: nat, upto: nat) returns (ms': seq<Move>)
    requires Valid(levels)
    requires var w := Reach(levels, now, ms);
      && j < |w.requests| && |w.requests[j].keys| == |levels| && !w.requests[j].denied
      && |w.requests[j].spans| <= upto <= |levels|
      && forall l :: |w.requests[j].spans| <= l < upto ==> OpenTo(levels, w, j, l)
    ensures ms <= ms' && HasPassed(levels, Reach(levels, now, ms), Reach(levels, now, ms'), j, upto)
    decreases upto - |Reach(levels, now, ms).requests[j].spans|
  {
    ms' := ms;
    var w := Reach(levels, now, ms);
    if |w.requests[j].spans| < upto {
      PassOne(levels, now, ms, j);
      var w1 := Reach(levels, now, ms + Through(j));
      forall l | |w1.requests[j].spans| <= l < upto ensures OpenTo(levels, w1, j, l) {
        assert OpenTo(levels, w, j, l);
      }
      ms' := Pass(levels, now, ms + Through(j), j, upto);
      ThenHasPassed(levels, w, w1, Reach(levels, now, ms'), j, upto);
    }
  }

  // -------------------------------------------- more than the limit completes

  function Tag(r: nat): (key: string)
    ensures |key| == r
  {
    seq(r, _ => 'x')
  }

  /** One key for all on level i, a key of its own for each request elsewhere. */
  function KeysOf(n: nat, i: nat, r: nat): (keys: seq<string>)
    ensures |keys| == n
    ensures forall l :: 0 <= l < n ==> if l == i then keys[l] == "" else |keys[l]| == r
  {
    var own := Tag(r);
    seq(n, l => if l == i then "" else own)
  }

  /** Request number q has got past level i and no further. */
  ghost predicate IsParked(r: Request, n: nat, i: nat, q: nat) {
    r.keys == KeysOf(n, i, q) && !r.denied && |r.spans| == i + 1
  }

  predicate Affordable(levels: seq<Level>) {
    forall l :: 0 <= l < |levels| ==> levels[l].cost <= levels[l].cfg.max
  }

  /** The first r requests are parked behind level i, which holds s for their key; the
      keys of later ones are untouched on the other levels, and those behind level i. */
  ghost predicate Parked(levels: seq<Level>, w: World, i: nat, r: nat, s: Sys)
    requires Valid(levels) && i < |levels|
  {
    && |w.views| == |levels| && |w.requests| == r && View(w, i, "") == s
    && (forall q :: 0 <= q < r ==> IsParked(w.requests[q], |levels|, i, q))
    && (forall l, k :: 0 <= l < |levels| && l != i && (l > i || |k| >= r) ==>
          View(w, l, k) == Init(levels[l].cfg, 0))
  }

  ghost predicate CanAdmit(s: Sys, level: Level) {
    s.pending == map[] && s.blockedUntil <= s.now && s.count + level.cost <= level.cfg.max
  }

  /** Request r has arrived and stands before the first level. */
  ghost predicate Arrived(levels: seq<Level>, w: World, i: nat, r: nat, s: Sys)
    requires Valid(levels) && i < |levels|
  {
    && |w.views| == |levels| && |w.requests| == r + 1 && View(w, i, "") == s
    && w.requests[r] == Request(KeysOf(|levels|, i, r), [], false)
    && (forall q :: 0 <= q < r ==> IsParked(w.requests[q], |levels|, i, q))
    && (forall l, k :: 0 <= l < |levels| && l != i && (l > i || |k| >= r) ==>
          View(w, l, k) == Init(levels[l].cfg, 0))
  }

  lemma {:induction false} NextArrives(levels: seq<Level>, ms: seq<Move>, i: nat, r: nat, s: Sys)
    requires Valid(levels) && i < |levels| && Parked(levels, Reach(levels, 0, ms), i, r, s)
    ensures var w := Reach(levels, 0, ms + [Arrive(KeysOf(|levels|, i, r))]);
      && Arrived(levels, w, i, r, s)
      && forall k :: View(w, i, k) == View(Reach(levels, 0, ms), i, k)
  {
    OneMove(levels, 0, ms, Arrive(KeysOf(|levels|, i, r)));
    var w := Reach(levels, 0, ms);
    Arrives(levels, w, KeysOf(|levels|, i, r));
  }

  lemma {:induction false} WayIsOpen(levels: seq<Level>, w: World, i: nat, r: nat, s: Sys, l: nat)
    requires Valid(levels) && Affordable(levels) && i < |levels| && CanAdmit(s, levels[i])
    requires Arrived(levels, w, i, r, s) && l <= i
    ensures OpenTo(levels, w, r, l)
  {
    var keys := KeysOf(|levels|, i, r);
    assert l != i ==> View(w, l, keys[l]) == Init(levels[l].cfg, 0);
  }

  lemma {:induction false} NowParked(levels: seq<Level>, w: World, w': World, i: nat, r: nat, s: Sys)
    requires Valid(levels) && i < |levels| && Arrived(levels, w, i, r, s)
    requires |w'.views| == |levels| && HasPassed(levels, w, w', r, i + 1)
    ensures Parked(levels, w', i, r + 1, Charge(s, levels[i].cost))
    ensures forall k :: k != "" ==> View(w', i, k) == View(w, i, k)
  {
    var keys := KeysOf(|levels|, i, r);
    assert keys[i] == "" && forall l :: 0 <= l < |levels| && l != i ==> |keys[l]| == r;
    assert forall q :: 0 <= q < r ==> w'.requests[q] == w.requests[q];
    assert View(w', i, keys[i]) == Charge(View(w, i, keys[i]), levels[i].cost);
  }

  lemma {:induction false} ParkOne(levels: seq<Level>, ms: seq<Move>, i: nat, r: nat, s: Sys) returns (ms': seq<Move>)
    requires Valid(levels) && Affordable(levels) && i < |levels| && CanAdmit(s, levels[i])
    requires Parked(levels, Reach(levels, 0, ms), i, r, s)
    ensures Parked(levels, Reach(levels, 0, ms'), i, r + 1, Charge(s, levels[i].cost))
    ensures forall k :: k != "" ==> View(Reach(levels, 0, ms'), i, k) == View(Reach(levels, 0, ms), i, k)
  {
    var arrival := Arrive(KeysOf(|levels|, i, r));
    NextArrives(levels, ms, i, r, s);
    var w := Reach(levels, 0, ms + [arrival]);
    forall l | 0 <= l < i + 1 ensures OpenTo(levels, w, r, l) {
      WayIsOpen(levels, w, i, r, s, l);
    }
    ms' := Pass(levels, 0, ms + [arrival], r, i + 1);
    NowParked(levels, w, Reach(levels, 0, ms'), i, r, s);
  }

  /** That many requests, all in the first span. */
  lemma {:induction false} Park(levels: seq<Level>, i: nat, r: nat) returns (ms: seq<Move>)
    requires Valid(levels) && Affordable(levels) && i < |levels| && r * levels[i].cost <= levels[i].cfg.max
    ensures var start := Init(levels[i].cfg, 0);
      && Parked(levels, Reach(levels, 0, ms), i, r, start.(count := r * levels[i].cost))
      && forall k :: k != "" ==> View(Reach(levels, 0, ms), i, k) == start
    decreases r
  {
    if r == 0 {
      ms := [];
      assert forall l, k :: 0 <= l < |levels| ==> View(Begin(levels, 0), l, k) == Beginning(levels[l].cfg, 0)(k);
    } else {
      var cost := levels[i].cost;
      assert r * cost == (r - 1) * cost + cost;
      ms := Park(levels, i, r - 1);
      ms := ParkOne(levels, ms, i, r - 1, Init(levels[i].cfg, 0).(count := (r - 1) * cost));
    }
  }

  /** One more in the next span. */
  lemma {:induction false} ParkBeyond(levels: seq<Level>, i: nat, r: nat) returns (ms: seq<Move>, s: Sys)
    requires Valid(levels) && Affordable(levels) && i < |levels| && r * levels[i].cost <= levels[i].cfg.max
    ensures Parked(levels, Reach(levels, 0, ms), i, r + 1, s)
  {
    ms := Park(levels, i, r);
    var w := Reach(levels, 0, ms);
    s := View(w, i, "");
    OneMove(levels, 0, ms, OnLevel(i, Swap));
    Swaps(levels, w, i);
    s := SwapStep(levels[i].cfg, s);
    assert s.now == levels[i].cfg.Span();
    ms := ParkOne(levels, ms + [OnLevel(i, Swap)], i, r, s);
    s := Charge(s, levels[i].cost);
  }

  lemma {:induction false} CompletedGrows(levels: seq<Level>, now: int, ms: seq<Move>, ms': seq<Move>, i: nat,
                                          key: string, k: int)
    requires Valid(levels) && i < |levels| && ms <= ms'
    ensures Completed(levels, now, ms, i, key, k) <= Completed(levels, now, ms', i, key, k)
    decreases |ms'|
  {
    if ms != ms' {
      CompletedGrows(levels, now, ms, ms'[..|ms'| - 1], i, key, k);
    }
  }

  /** Getting past the last level completes the chain. */
  lemma {:induction false} LastPassCompletes(levels: seq<Level>, now: int, ms: seq<Move>, j: nat, i: nat)
    requires Valid(levels) && i < |levels| - 1
    requires var w := Reach(levels, now, ms);
      Free(levels, w, j) && |w.requests[j].spans| == |levels| - 1
    ensures var w := Reach(levels, now, ms); var key := w.requests[j].keys[i]; var k := View(w, i, key).tick;
      Completed(levels, now, ms + Through(j), i, key, k) >= Completed(levels, now, ms, i, key, k) + levels[i].cost
  {
    var w := Reach(levels, now, ms);
    var key := w.requests[j].keys[i];
    var k := View(w, i, key).tick;
    var ask := Proceed(j, AskBlocked(1.0));
    GetsThrough(levels, now, ms, j);
    OneMove(levels, now, ms, ask);
    TakesTurn(levels, w, j, AskBlocked(1.0));
    CompletedGrows(levels, now, ms, ms + [ask], i, key, k);
    var last := Proceed(j, CountIn);
    OneMove(levels, now, ms + [ask], last);
    assert ms + Through(j) == ms + [ask] + [last];
    assert (ms + [ask] + [last])[..|ms| + 1] == ms + [ask];
    assert Completing(levels, Reach(levels, now, ms + [ask]), last, i, key, k) == levels[i].cost;
  }

  /** Requests from number q on are still parked, and their keys untouched further on. */
  ghost predicate Releasing(levels: seq<Level>, w: World, i: nat, total: nat, q: nat, s: Sys)
    requires Valid(levels) && i < |levels|
  {
    && |w.views| == |levels| && |w.requests| == total && View(w, i, "") == s
    && (forall p :: q <= p < total ==> IsParked(w.requests[p], |levels|, i, p))
    && (forall l, k :: i < l < |levels| && |k| >= q ==> View(w, l, k) == Init(levels[l].cfg, 0))
  }

  lemma {:induction false} RestIsOpen(levels: seq<Level>, w: World, i: nat, total: nat, q: nat, s: Sys, l: nat)
    requires Valid(levels) && Affordable(levels) && i < |levels| && q < total
    requires Releasing(levels, w, i, total, q, s) && i < l < |levels|
    ensures OpenTo(levels, w, q, l)
  {
    assert View(w, l, KeysOf(|levels|, i, q)[l]) == Init(levels[l].cfg, 0);
  }

  lemma {:induction false} StillReleasing(levels: seq<Level>, w: World, w': World, i: nat, total: nat, q: nat, s: Sys)
    requires Valid(levels) && i < |levels| && q < total && Releasing(levels, w, i, total, q, s)
    requires |w'.views| == |levels| && HasPassed(levels, w, w', q, |levels|)
    ensures Releasing(levels, w', i, total, q + 1, s)
  {
    var keys := KeysOf(|levels|, i, q);
    assert forall l :: 0 <= l < |levels| && l != i ==> |keys[l]| == q;
  }

  lemma {:induction false} ReleaseOne(levels: seq<Level>, ms: seq<Move>, i: nat, total: nat, q: nat, s: Sys)
      returns (ms': seq<Move>)
    requires Valid(levels) && Affordable(levels) && i < |levels| - 1 && q < total
    requires Releasing(levels, Reach(levels, 0, ms), i, total, q, s)
    ensures Releasing(levels, Reach(levels, 0, ms'), i, total, q + 1, s)
    ensures Completed(levels, 0, ms', i, "", s.tick) >= Completed(levels, 0, ms, i, "", s.tick) + levels[i].cost
  {
    var n, w := |levels|, Reach(levels, 0, ms);
    forall l | i + 1 <= l < n ensures OpenTo(levels, w, q, l) {
      RestIsOpen(levels, w, i, total, q, s, l);
    }
    ms' := Pass(levels, 0, ms, q, n - 1);
    var w1 := Reach(levels, 0, ms');
    assert OpenTo(levels, w1, q, n - 1) by { assert OpenTo(levels, w, q, n - 1); }
    CompletedGrows(levels, 0, ms, ms', i, "", s.tick);
    assert w1.requests[q].keys[i] == "" && View(w1, i, "") == s;
    LastPassCompletes(levels, 0, ms', q, i);
    PassOne(levels, 0, ms', q);
    ms' := ms' + Through(q);
    StillReleasing(levels, w, Reach(levels, 0, ms'), i, total, q, s);
  }

  lemma {:induction false} Release(levels: seq<Level>, ms: seq<Move>, i: nat, total: nat, q: nat, s: Sys)
      returns (ms': seq<Move>)
    requires Valid(levels) && Affordable(levels) && i < |levels| - 1 && q <= total
    requires Releasing(levels, Reach(levels, 0, ms), i, total, q, s)
    ensures Completed(levels, 0, ms', i, "", s.tick) >=
            Completed(levels, 0, ms, i, "", s.tick) + (total - q) * levels[i].cost
    decreases total - q
  {
    ms' := ms;
    if q < total {
      ms' := ReleaseOne(levels, ms, i, total, q, s);
      ms' := Release(levels, ms', i, total, q + 1, s);
      assert (total - q) * levels[i].cost == (total - q - 1) * levels[i].cost + levels[i].cost;
    }
  }

  lemma {:induction false} HowMany(max: nat, cost: nat) returns (r: nat)
    requires cost > 0
    ensures r * cost <= max < (r + 1) * cost
  {
    r := max / cost;
    assert max == r * cost + max % cost;
  }

  /** As many requests as the limit allows in one span and one in the next, which then
      complete together. */
  lemma {:induction false} TooManyComplete(levels: seq<Level>, i: nat) returns (ms: seq<Move>, k: int)
    requires Valid(levels) && Affordable(levels) && i < |levels| - 1 && levels[i].cost > 0
    ensures Completed(levels, 0, ms, i, "", k) > levels[i].cfg.max
  {
    var cost, max := levels[i].cost, levels[i].cfg.max;
    var r := HowMany(max, cost);
    var s;
    ms, s := ParkBeyond(levels, i, r);
    ms := Release(levels, ms, i, r + 1, 0, s);
    k := s.tick;
  }

  /** What completes the chain in one span of a level stays within that level's limit, in
      every run, exactly if the level is the last one, charges nothing, or some level
      charges more than its limit, so that nothing completes at all. */
  lemma {:induction false} CompletionsKeptIff(levels: seq<Level>, i: nat)
    requires Valid(levels) && i < |levels|
    ensures KeepsCompletions(levels, i) <==>
            i == |levels| - 1 || levels[i].cost == 0 || !Affordable(levels)
  {
    if i < |levels| - 1 && levels[i].cost > 0 && Affordable(levels) {
      var ms, k := TooManyComplete(levels, i);
    } else {
      forall now, ms, key, k ensures Completed(levels, now, ms, i, key, k) <= levels[i].cfg.max {
        if i == |levels| - 1 {
          LastLevelAdmits(levels, now, ms, i, key, k);
          SpanAdmission(levels[i].cfg, now, RunOf(levels, now, ms, i, key), k);
        } else if levels[i].cost == 0 {
          FreeOfCharge(levels, now, ms, i, key, k);
        } else {
          var l :| 0 <= l < |levels| && levels[l].cost > levels[l].cfg.max;
          NothingCompletes(levels, now, ms, l, i, key, k);
        }
      }
    }
  }

  /** Two levels with 100 requests a minute, 6 spans and 30 seconds of cooldown; a
      request costs 100 on the first and one on the second. */
  const LIMITS := Config(100, 60_000_000_000, 6, 30_000_000_000)
  const TWO_LEVELS := [Level(LIMITS, 100), Level(LIMITS, 1)]

  /** There, more than the first level's limit of 100 can complete in one of its spans. */
  lemma {:induction false} CompletionsExceedTheLimit()
    ensures !KeepsCompletions(TWO_LEVELS, 0) && KeepsCompletions(TWO_LEVELS, 1)
  {
    CompletionsKeptIff(TWO_LEVELS, 0);
    CompletionsKeptIff(TWO_LEVELS, 1);
  }
}
