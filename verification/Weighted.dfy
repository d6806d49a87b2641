/** Weighted selection by running sums (proxy/internal/balancer/balancer.go). */
module Weighted {
  import opened Wrappers

  datatype Peer = Peer(alive: bool, weight: int)

  predicate NonNegative(ps: seq<Peer>) {
    forall i :: 0 <= i < |ps| ==> ps[i].weight >= 0
  }

  /** The weight of the live ones among the first m. */
  function Total(ps: seq<Peer>, m: nat): int
    requires m <= |ps|
  {
    if m == 0 then 0 else Total(ps, m - 1) + if ps[m - 1].alive then ps[m - 1].weight else 0
  }

  /** The loop from place i on, with the weight before it already summed. */
  function Pick(ps: seq<Peer>, target: int, i: nat, sum: int): Option<nat>
    requires i <= |ps|
    decreases |ps| - i
  {
    if i == |ps| then None
    else if !ps[i].alive then Pick(ps, target, i + 1, sum)
    else if target < sum + ps[i].weight then Some(i)
    else Pick(ps, target, i + 1, sum + ps[i].weight)
  }

  lemma {:induction false} TotalGrows(ps: seq<Peer>, m: nat, n: nat)
    requires m <= n <= |ps| && NonNegative(ps)
    ensures Total(ps, m) <= Total(ps, n)
    decreases n
  {
    if m < n {
      TotalGrows(ps, m, n - 1);
    }
  }

  /** A draw selects the live backend in whose stretch of the running sum it lies. */
  lemma {:induction false} PickIsStretch(ps: seq<Peer>, target: int, i: nat, k: nat)
    requires NonNegative(ps) && i <= |ps| && k < |ps| && Total(ps, i) <= target
    ensures Pick(ps, target, i, Total(ps, i)) == Some(k) <==>
            i <= k && ps[k].alive && Total(ps, k) <= target < Total(ps, k) + ps[k].weight
    ensures Pick(ps, target, i, Total(ps, i)) == None <==> target >= Total(ps, |ps|)
    decreases |ps| - i
  {
    if i < |ps| {
      TotalGrows(ps, i + 1, |ps|);
      if ps[i].alive && target < Total(ps, i + 1) {
        if i < k { TotalGrows(ps, i + 1, k); }
      } else {
        PickIsStretch(ps, target, i + 1, k);
      }
    }
  }

  /** The fallback after the loop is never reached, whatever the signs of the weights:
      at the last live backend the running sum is the total. */
  lemma {:induction false} SomebodyIsPicked(ps: seq<Peer>, target: int, i: nat)
    requires i <= |ps| && Total(ps, i) <= target < Total(ps, |ps|)
    ensures Pick(ps, target, i, Total(ps, i)).Some?
    decreases |ps| - i
  {
    if !ps[i].alive || target >= Total(ps, i + 1) {
      SomebodyIsPicked(ps, target, i + 1);
    }
  }

  lemma {:induction false} LossLowersTotal(first: seq<Peer>, second: seq<Peer>, m: nat)
    requires m <= |first| == |second| && NonNegative(first)
    requires forall k :: 0 <= k < |first| ==> second[k].weight == first[k].weight
    requires forall k :: 0 <= k < m && first[k].alive ==> second[k].alive
    ensures Total(first, m) <= Total(second, m)
  {
    if m > 0 {
      LossLowersTotal(first, second, m - 1);
    }
  }

  /** The code reads each flag once for the total and again in the loop, and an error
      handler may mark backends down in between: the fallback is taken exactly if the
      draw is beyond the second total, which takes a loss. */
  lemma {:induction false} FallbackIff(first: seq<Peer>, second: seq<Peer>, target: int)
    requires |first| == |second| && NonNegative(first) && 0 <= target < Total(first, |first|)
    requires forall k :: 0 <= k < |first| ==> second[k].weight == first[k].weight
    ensures Pick(second, target, 0, 0) == None <==> target >= Total(second, |second|)
    ensures Pick(second, target, 0, 0) == None ==>
      exists k :: 0 <= k < |first| && first[k].alive && !second[k].alive
  {
    assert first != [];
    PickIsStretch(second, target, 0, 0);
    if forall k :: 0 <= k < |first| && first[k].alive ==> second[k].alive {
      LossLowersTotal(first, second, |first|);
    }
  }

  /** It can be: two backends of weight one, draw one, and the second goes down. */
  lemma {:induction false} FallbackHappens()
    ensures var first, second := [Peer(true, 1), Peer(true, 1)], [Peer(true, 1), Peer(false, 1)];
      Total(first, 2) == 2 && Pick(first, 1, 0, 0) == Some(1) && Pick(second, 1, 0, 0) == None
  {
    var first, second := [Peer(true, 1), Peer(true, 1)], [Peer(true, 1), Peer(false, 1)];
    PickIsStretch(first, 1, 0, 1);
    FallbackIff(first, second, 1);
  }

  /** How many of the draws 0 .. draws - 1 select k. */
  function Draws(ps: seq<Peer>, k: nat, draws: nat): nat {
    if draws == 0 then 0
    else Draws(ps, k, draws - 1) + if Pick(ps, draws - 1, 0, 0) == Some(k) then 1 else 0
  }

  lemma {:induction false} DrawsSoFar(ps: seq<Peer>, k: nat, draws: nat)
    requires NonNegative(ps) && k < |ps|
    ensures var from := Total(ps, k); var to := from + if ps[k].alive then ps[k].weight else 0;
      Draws(ps, k, draws) == if draws <= from then 0 else if draws <= to then draws - from else to - from
    decreases draws
  {
    TotalGrows(ps, 0, k);
    if draws > 0 {
      DrawsSoFar(ps, k, draws - 1);
      PickIsStretch(ps, draws - 1, 0, k);
    }
  }

  /** Exactly proportional: of all the draws below the total weight, a live backend
      gets as many as its weight, a dead one none. */
  lemma {:induction false} SelectionIsProportional(ps: seq<Peer>, k: nat)
    requires NonNegative(ps) && k < |ps|
    ensures Total(ps, |ps|) >= 0
    ensures Draws(ps, k, Total(ps, |ps|)) == if ps[k].alive then ps[k].weight else 0
    ensures forall t :: 0 <= t < Total(ps, |ps|) ==> Pick(ps, t, 0, 0).Some?
  {
    TotalGrows(ps, 0, |ps|);
    TotalGrows(ps, k + 1, |ps|);
    DrawsSoFar(ps, k, Total(ps, |ps|));
    forall t | 0 <= t < Total(ps, |ps|) ensures Pick(ps, t, 0, 0).Some? {
      PickIsStretch(ps, t, 0, k);
    }
  }
}
