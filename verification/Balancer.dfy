/** The load balancer's objects (proxy/internal/balancer/balancer.go, backend.go): the
    selections, the cyclic scan for the next backend, and the chain of retries of a
    request that runs without others. */
module Balancer {
  import opened RoundRobin
  import opened Retries
  import opened RetryAlone
  import opened Wrappers
  import Weighted

  // ------------------------------------------------------------ the objects

  class Backend {
    var Alive: bool
    const Weight: int
    var connections: int
    var failCount: nat

    constructor (weight: int)
      ensures Alive && Weight == weight && connections == 0 && failCount == 0
    {
      Alive, Weight, connections, failCount := true, weight, 0, 0;
    }

    function State(): Health
      reads this
    {
      Health(Alive, failCount)
    }

    method SetAlive(alive: bool)
      modifies this`Alive, this`failCount
      ensures State() == Health(alive, if alive then 0 else old(failCount))
    {
      Alive := alive;
      if alive {
        failCount := 0;
      }
    }

    method IncreaseFailCount() returns (count: int)
      modifies this`failCount
      ensures failCount == old(failCount) + 1 && count == failCount
    {
      failCount := failCount + 1;
      count := failCount;
    }

    method ResetFailCount()
      modifies this`failCount
      ensures failCount == 0
    {
      failCount := 0;
    }
  }

  class LoadBalancer {
    const Backends: seq<Backend>
    const MaxFailCount: int
    var Current: nat
    var atomicCurrent: int
    /** How the backends stood at first, and the steps of module Retries since. */
    ghost const began: seq<Health>
    ghost var trace: seq<Event>

    ghost predicate Valid()
      reads this
    {
      && Backends != []
      && (forall i, j :: 0 <= i < j < |Backends| ==> Backends[i] != Backends[j])
      && Current < |Backends| && 0 <= atomicCurrent < WRAP
    }

    constructor (backends: seq<Backend>, maxFailCount: int)
      requires backends != [] && forall i, j :: 0 <= i < j < |backends| ==> backends[i] != backends[j]
      ensures Valid() && Backends == backends && MaxFailCount == maxFailCount
      ensures (forall i :: 0 <= i < |backends| ==> backends[i].connections == 0) ==> Shows()
    {
      Backends, MaxFailCount, Current, atomicCurrent := backends, maxFailCount, 0, 0;
      began := seq(|backends|, i requires 0 <= i < |backends| reads backends => backends[i].State());
      trace := [];
    }

    ghost function Protocol(): (s: Sys)
      reads `trace
      ensures InRange(s)
    {
      Run(MaxFailCount, began, trace)
    }

    /** The objects stand as the protocol does after these steps, nobody scanning. */
    ghost predicate Shows()
      reads this, Backends
    {
      var s := Protocol();
      && |s.hs| == |s.connections| == |Backends|
      && (forall i :: 0 <= i < |Backends| ==> Backends[i].State() == s.hs[i])
      && (forall i :: 0 <= i < |Backends| ==> Backends[i].connections == s.connections[i])
      && s.current == Current && s.scanner == None
    }

    ghost function Connections(): (cs: seq<int>)
      reads Backends
      ensures |cs| == |Backends|
    {
      seq(|Backends|, i requires 0 <= i < |Backends| reads Backends => Backends[i].connections)
    }

    ghost function States(): (hs: seq<Health>)
      reads Backends
      ensures |hs| == |Backends|
    {
      seq(|Backends|, i requires 0 <= i < |Backends| reads Backends => Backends[i].State())
    }

    ghost function AliveNow(): (s: seq<bool>)
      reads Backends
      ensures |s| == |Backends|
    {
      seq(|Backends|, i requires 0 <= i < |Backends| reads Backends => Backends[i].Alive)
    }

    ghost function Peers(): (ps: seq<Weighted.Peer>)
      reads Backends
      ensures |ps| == |Backends|
    {
      seq(|Backends|, i requires 0 <= i < |Backends| reads Backends =>
        Weighted.Peer(Backends[i].Alive, Backends[i].Weight))
    }

    // ------------------------------------------------------------ selection

    method RoundRobinSelect() returns (b: Option<nat>)
      requires Valid()
      modifies this`atomicCurrent
      ensures Valid() && Scan(b, atomicCurrent) == Select(AliveNow(), old(atomicCurrent), |Backends|)
      ensures old(Shows()) ==> Shows()
    {
      var n := |Backends|;
      for i := 0 to n
        invariant 0 <= atomicCurrent < WRAP
        invariant Select(AliveNow(), old(atomicCurrent), n) == Select(AliveNow(), atomicCurrent, n - i)
      {
        atomicCurrent := (atomicCurrent + 1) % WRAP;
        var idx := atomicCurrent % n;
        if Backends[idx].Alive {
          return Some(idx);
        }
      }
      return None;
    }

    /** `draw` is the random number below its argument.  The result is nil when the
        total is zero, also if live backends all have weight zero; otherwise somebody
        is picked, so the fallback to round robin after the loop is never taken. */
    method WeightedSelect(draw: int -> int) returns (b: Option<nat>)
      requires Valid() && Weighted.Total(Peers(), |Backends|) >= 0
      requires forall total :: total > 0 ==> 0 <= draw(total) < total
      ensures var total := Weighted.Total(Peers(), |Backends|);
        && (total == 0 <==> b == None)
        && (total > 0 ==> b == Weighted.Pick(Peers(), draw(total), 0, 0))
    {
      var total := 0;
      for i := 0 to |Backends|
        invariant total == Weighted.Total(Peers(), i)
      {
        if Backends[i].Alive {
          total := total + Backends[i].Weight;
        }
      }
      b := None;
      if total == 0 {
        return;
      }
      var target := draw(total);
      var sum := 0;
      Weighted.SomebodyIsPicked(Peers(), target, 0);
      for i := 0 to |Backends|
        invariant sum == Weighted.Total(Peers(), i) <= target
        invariant Weighted.Pick(Peers(), target, 0, 0) == Weighted.Pick(Peers(), target, i, sum)
      {
        if Backends[i].Alive {
          sum := sum + Backends[i].Weight;
          if target < sum {
            return Some(i);
          }
        }
      }
      assert false;
    }

    /** The next live backend in cyclic order, d places on; nil exactly if nobody is
        alive, after one full turn that leaves Current where it was. */
    method NextBackend() returns (b: Option<nat>, ghost d: nat)
      requires Valid()
      modifies this`Current
      ensures Valid() && 1 <= d <= |Backends| && Current == Spot(old(Current), d, |Backends|)
      ensures forall j :: 1 <= j < d ==> !AliveNow()[Spot(old(Current), j, |Backends|)]
      ensures b == if Backends[Current].Alive then Some(Current) else None
      ensures b == None <==> true !in AliveNow()
      ensures b == None ==> Current == old(Current)
    {
      var n, initial := |Backends|, Current;
      d := 0;
      while true
        invariant 0 <= d < n && Current < n && Current == Spot(initial, d, n)
        invariant forall j :: 1 <= j <= d ==> !AliveNow()[Spot(initial, j, n)]
        decreases n - d
      {
        NextSpot(Current, n);
        Current := (Current + 1) % n;
        d := d + 1;
        if Backends[Current].Alive {
          assert AliveNow()[Current];
          return Some(Current), d;
        }
        if Current == initial {
          FullTurn(AliveNow(), initial);
          return None, d;
        }
      }
    }

    /** The outcome of one health check. */
    method CheckBackend(k: nat, alive: bool)
      requires Valid() && k < |Backends| && Shows()
      modifies this`trace, {Backends[k]}
      ensures Valid() && Shows() && trace == old(trace) + [CheckHealth(k, alive)]
      ensures Protocol().hs == old(Protocol().hs)[k := Health(alive, if alive then 0 else old(Protocol().hs)[k].fails)]
      ensures Protocol().connections == old(Protocol().connections)
    {
      OneMore(MaxFailCount, began, trace, CheckHealth(k, alive));
      Backends[k].SetAlive(alive);
      trace := trace + [CheckHealth(k, alive)];
    }

    // ------------------------------------------------------- the retry chain

    lemma {:induction false} Agree()
      requires Shows()
      ensures States() == Protocol().hs && Connections() == Protocol().connections
    {
    }

    lemma {:induction false} ThenShows()
      requires States() == Protocol().hs && Connections() == Protocol().connections
      requires Current == Protocol().current && Protocol().scanner == None
      ensures Shows()
    {
      assert forall i :: 0 <= i < |Backends| ==> States()[i] == Backends[i].State();
      assert forall i :: 0 <= i < |Backends| ==> Connections()[i] == Backends[i].connections;
    }

    /** Bookkeeping only: request j got an answer. */
    ghost method TakeAnswer(k: nat, outcome: nat -> Outcome, calls: nat, j: nat)
      requires Shows() && Called(Protocol(), j, k, outcome, calls) && outcome(calls).Answer?
      requires Budget(Protocol().hs, MaxFailCount) > 0
      modifies this`trace
      ensures Shows()
      ensures Ran(MaxFailCount, began, old(trace), trace, j, outcome, calls, outcome(calls).status, calls + 1)
    {
      RanAnswered(MaxFailCount, began, trace, j, k, outcome, calls);
      trace := trace + [GetAnswer(j, outcome(calls).status)];
    }

    /** Bookkeeping only: the protocol takes the steps that the objects have taken. */
    ghost method TakeBoth(e: Event, e': Event)
      requires InRange(Step(MaxFailCount, Protocol(), e))
      requires var t := Step(MaxFailCount, Step(MaxFailCount, Protocol(), e), e');
        t.hs == States() && t.connections == Connections() && t.current == Current && t.scanner == None
      modifies this`trace
      ensures Shows() && trace == old(trace) + [e] + [e']
      ensures Protocol() == Step(MaxFailCount, Step(MaxFailCount, old(Protocol()), e), e')
    {
      TwoMore(MaxFailCount, began, trace, e, e');
      trace := trace + [e] + [e'];
      ThenShows();
    }

    /** One proxied call, and the retries that failures set off: the error handler
        counts the failure, marks the backend down at the limit and goes on with the
        next live one.  `outcome` says how the calls of this request come out, by
        number; nobody else touches the backends meanwhile, which module Retries does
        not assume.  The chain ends: every failure costs one unit of the budget.  It
        stops at the first answer, and fails exactly if the whole budget is used up,
        when every backend is down.  In the protocol it is steps of request j. */
    method Forward(k: nat, outcome: nat -> Outcome, calls: nat, ghost j: nat) returns (status: int, total: nat)
      requires Valid() && k < |Backends| && Backends[k].Alive && Shows() && Called(Protocol(), j, k, outcome, calls)
      modifies this`Current, this`trace, Backends
      ensures Valid() && Shows() && Ran(MaxFailCount, began, old(trace), trace, j, outcome, calls, status, total)
      decreases Budget(Protocol().hs, MaxFailCount), 1
    {
      LivesCount(Protocol().hs, k, MaxFailCount);
      if outcome(calls).Answer? {
        TakeAnswer(k, outcome, calls, j);
        return outcome(calls).status, calls + 1;
      }
      status, total := Retry(k, outcome, calls, j);
    }

    /** The error handler, after call number `calls` to backend k got no answer. */
    method Retry(k: nat, outcome: nat -> Outcome, calls: nat, ghost j: nat) returns (status: int, total: nat)
      requires Valid() && k < |Backends| && Backends[k].Alive && Shows() && Called(Protocol(), j, k, outcome, calls)
      requires outcome(calls) == NoAnswer
      modifies this`Current, this`trace, Backends
      ensures Valid() && Shows() && Ran(MaxFailCount, began, old(trace), trace, j, outcome, calls, status, total)
      decreases Budget(Protocol().hs, MaxFailCount), 0
    {
      ghost var es := trace;
      var next := FailOverOf(k, outcome, calls, j);
      match next {
        case None =>
          RanOut(MaxFailCount, began, es, trace, j, outcome, calls);
          return 503, calls + 1;
        case Some(n) =>
          ghost var mid := trace;
          status, total := Forward(n, outcome, calls + 1, j);
          RanOn(MaxFailCount, began, es, mid, trace, j, outcome, calls, status, total);
      }
    }

    /** The same for request j in the protocol. */
    method FailOverOf(k: nat, outcome: nat -> Outcome, calls: nat, ghost j: nat) returns (next: Option<nat>)
      requires Valid() && k < |Backends| && Backends[k].Alive && Shows() && Called(Protocol(), j, k, outcome, calls)
      requires outcome(calls) == NoAnswer
      modifies this`Current, this`trace, {Backends[k]}
      ensures Valid() && Shows() && Fails(MaxFailCount, began, old(trace), trace, j, 1)
      ensures match next
        case Some(n) => n < |Backends| && Backends[n].Alive && Called(Protocol(), j, n, outcome, calls + 1)
        case None => Ends(Protocol(), j, outcome, calls + 1, 503) && Budget(Protocol().hs, MaxFailCount) == 0
    {
      ghost var d;
      Agree();
      FailAtCounts(States(), k, MaxFailCount);
      next, d := FailOver(k);
      Record(k, outcome, calls, j, d);
    }

    /** What the error handler does before it calls the next backend: the failure is
        counted, and the scan finds the next live backend in cyclic order, d places on,
        or nobody. */
    method FailOver(k: nat) returns (next: Option<nat>, ghost d: nat)
      requires Valid() && k < |Backends| && Backends[k].Alive
      modifies this`Current, {Backends[k]}
      ensures Valid() && Connections() == old(Connections())
      ensures States() == FailAt(old(States()), k, MaxFailCount)
      ensures Budget(States(), MaxFailCount) == old(Budget(States(), MaxFailCount)) - 1
      ensures FailSum(States()) == old(FailSum(States())) + 1
      ensures 1 <= d <= |Backends| && Dead(States(), old(Current), d - 1)
      ensures Current == Spot(old(Current), d, |Backends|)
      ensures next == (if States()[Current].alive then Some(Current) else None)
      ensures next == None <==> Budget(States(), MaxFailCount) == 0
      ensures next == None ==> d == |Backends|
    {
      FailAtCounts(States(), k, MaxFailCount);
      MarkFailure(k);
      NobodyLeft();
      ghost var hs := States();
      next, d := NextBackend();
      assert States() == hs;
    }

    /** Bookkeeping only: the same in the protocol. */
    ghost method Record(k: nat, outcome: nat -> Outcome, calls: nat, j: nat, d: nat)
      requires Called(Protocol(), j, k, outcome, calls) && outcome(calls) == NoAnswer && k < |Backends|
      requires var s := Protocol();
        && |s.hs| == |Backends| && s.hs[k].alive && States() == FailAt(s.hs, k, MaxFailCount)
        && s.connections == Connections() && s.scanner == None
        && 1 <= d <= |Backends| && Dead(States(), s.current, d - 1) && Current == Spot(s.current, d, |Backends|)
        && (States()[Current].alive || d == |Backends|)
      modifies this`trace
      ensures Shows() && Fails(MaxFailCount, began, old(trace), trace, j, 1) && Protocol().hs == States()
      ensures if States()[Current].alive then Called(Protocol(), j, Current, outcome, calls + 1)
              else Ends(Protocol(), j, outcome, calls + 1, 503)
    {
      FailAtCounts(Protocol().hs, k, MaxFailCount);
      trace := FailAndScan(MaxFailCount, began, trace, j, d);
      ThenShows();
    }

    lemma {:induction false} NobodyLeft()
      ensures Budget(States(), MaxFailCount) == 0 <==> true !in AliveNow()
    {
      BudgetZeroIffDown(States(), MaxFailCount);
      assert forall i :: 0 <= i < |Backends| ==> AliveNow()[i] == States()[i].alive;
    }

    /** Counting the failure, and marking the backend down at the limit. */
    method MarkFailure(k: nat)
      requires Valid() && k < |Backends| && Backends[k].Alive
      modifies {Backends[k]}
      ensures States() == FailAt(old(States()), k, MaxFailCount)
      ensures Connections() == old(Connections())
      ensures Budget(States(), MaxFailCount) == old(Budget(States(), MaxFailCount)) - 1
    {
      FailAtCounts(States(), k, MaxFailCount);
      var failCount := Backends[k].IncreaseFailCount();
      if failCount >= MaxFailCount {
        Backends[k].SetAlive(false);
      }
      assert States() == FailAt(old(States()), k, MaxFailCount);
      assert Connections() == old(Connections());
    }

    method OpenConnection(k: nat)
      requires Valid() && k < |Backends|
      modifies {Backends[k]}
      ensures Connections() == Bump(old(Connections()), k, 1)
      ensures States() == old(States())
    {
      Backends[k].connections := Backends[k].connections + 1;
      assert Connections() == Bump(old(Connections()), k, 1);
      assert States() == old(States());
    }

    method CloseConnection(k: nat)
      requires Valid() && k < |Backends|
      modifies {Backends[k]}
      ensures Connections() == Bump(old(Connections()), k, -1)
      ensures States() == old(States())
    {
      Backends[k].connections := Backends[k].connections - 1;
      assert Connections() == Bump(old(Connections()), k, -1);
      assert States() == old(States());
    }

    /** An answer below 500 clears the fail count, any other leaves it. */
    method Settle(k: nat, status: int)
      requires Valid() && k < |Backends|
      modifies {Backends[k]}
      ensures States() == Cleared(old(States()), k, status)
      ensures Connections() == old(Connections())
    {
      if status < 500 {
        Backends[k].ResetFailCount();
        assert States() == Cleared(old(States()), k, status);
      }
      assert Connections() == old(Connections());
    }

    /** What ServeHTTP does before the first call. */
    method BeginRequest(k: nat) returns (ghost j: nat)
      requires Valid() && k < |Backends| && Backends[k].Alive && Shows()
      modifies this`trace, {Backends[k]}
      ensures Valid() && Protocol().hs == old(Protocol().hs)
      ensures Protocol().connections == Bump(old(Protocol().connections), k, 1)
      ensures j == |old(Protocol()).requests| && Shows() && trace == old(trace) + [Choose(k)] + [Open(j)]
      ensures |Protocol().requests| == j + 1 && var r := Protocol().requests[j];
        r.first == k && r.outcomes == [] && r.stage == Calling(k)
    {
      j := |Protocol().requests|;
      Agree();
      ChooseAndOpen(MaxFailCount, Protocol(), k);
      OpenConnection(k);
      TakeBoth(Choose(k), Open(j));
    }

    /** And what it does when the chain is over. */
    method EndRequest(k: nat, outcome: nat -> Outcome, total: nat, status: int, ghost j: nat)
      requires Valid() && k < |Backends| && Shows() && Ends(Protocol(), j, outcome, total, status)
      requires Protocol().requests[j].first == k
      modifies this`trace, {Backends[k]}
      ensures Valid() && Protocol().connections == Bump(old(Protocol().connections), k, -1)
      ensures Protocol().hs == Cleared(old(Protocol().hs), k, status)
      ensures Shows() && trace == old(trace) + [Close(j)] + [Clear(j)]
      ensures Served(Protocol(), j, k, outcome, total, status)
    {
      Agree();
      CloseAndClear(MaxFailCount, Protocol(), j);
      CloseConnection(k);
      Settle(k, status);
      TakeBoth(Close(j), Clear(j));
    }

    /** The part of ServeHTTP around the chain: connections are counted up and down
        again, and an answer below 500 clears the fail count of the backend that was
        chosen first, whoever gave the answer in the end. */
    method Serve(k: nat, outcome: nat -> Outcome) returns (status: int, total: nat)
      requires Valid() && k < |Backends| && Backends[k].Alive && Shows()
      modifies this`Current, this`trace, Backends
      ensures Valid() && Chain(outcome, 0, old(Budget(Protocol().hs, MaxFailCount)), status, total)
      ensures outcome(total - 1) == NoAnswer ==> forall i :: 0 <= i < |Backends| ==> !Protocol().hs[i].alive
      ensures Protocol().connections == old(Protocol().connections)
      ensures Settled(old(Protocol().hs), Protocol().hs, k, status, Failures(outcome, 0, total), outcome(0).Answer?)
      ensures var j := |old(Protocol()).requests|;
        Shows() && GoesFromChoice(old(trace), trace, k, j) && Served(Protocol(), j, k, outcome, total, status)
    {
      LivesCount(Protocol().hs, k, MaxFailCount);
      ghost var hs, cs, es := Protocol().hs, Protocol().connections, trace;
      ghost var j := BeginRequest(k);
      ghost var begun := trace;
      status, total := Forward(k, outcome, 0, j);
      BudgetZeroIffDown(Protocol().hs, MaxFailCount);
      WholeRequest(es, begun, trace, k, j);
      SettlesSo(hs, Protocol().hs, k, status, Failures(outcome, 0, total), outcome(0).Answer?);
      BumpBack(cs, k);
      EndRequest(k, outcome, total, status, j);
    }
  }
}
