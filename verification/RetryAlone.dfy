/** A request that runs through the protocol of module Retries without others, in one
    go: what its failures, its scans and its end leave behind. */
module RetryAlone {
  import opened Retries
  import opened Wrappers

  /** What a whole request leaves of the fail counts: they have grown by one for each of
      its failures, and an answer below 500 has cleared that of its first backend k, and
      no other answer has.  If its first call was answered nothing else has changed. */
  predicate Settled(before: seq<Health>, after: seq<Health>, k: nat, status: int, failures: int, first: bool) {
    && |before| == |after| && k < |after|
    && (forall i :: 0 <= i < |after| && i != k ==> after[i].fails >= before[i].fails)
    && FailSum(after) <= FailSum(before) + failures
    && (if status < 500 then after[k].fails == 0
        else after[k].fails >= before[k].fails && FailSum(after) == FailSum(before) + failures)
    && (first ==> after == if status < 500 then before[k := Health(before[k].alive, 0)] else before)
  }

  lemma {:induction false} SettlesSo(before: seq<Health>, mid: seq<Health>, k: nat, status: int, failures: int,
                                     first: bool)
    requires NoLess(before, mid) && k < |mid| && FailSum(mid) == FailSum(before) + failures
    requires first ==> mid == before
    ensures Settled(before, Cleared(mid, k, status), k, status, failures, first)
  {
    FailSumUpdate(mid, k, Health(mid[k].alive, 0));
  }

  /** An answer below 500 clears the fail count, any other leaves it. */
  function Cleared(hs: seq<Health>, k: nat, status: int): (after: seq<Health>)
    requires k < |hs|
    ensures |after| == |hs| && forall i :: 0 <= i < |hs| ==> after[i].alive == hs[i].alive
  {
    if status < 500 then hs[k := Health(hs[k].alive, 0)] else hs
  }

  function Bump(cs: seq<int>, k: nat, more: int): (after: seq<int>)
    requires k < |cs|
    ensures |after| == |cs|
  {
    cs[k := cs[k] + more]
  }

  lemma {:induction false} BumpBack(cs: seq<int>, k: nat)
    requires k < |cs|
    ensures Bump(Bump(cs, k, 1), k, -1) == cs
  {
  }

  /** An answer ends the chain and touches nothing else. */
  lemma {:induction false} AnswerEnds(max: int, hs: seq<Health>, es: seq<Event>, j: nat, status: int)
    requires Enabled(Run(max, hs, es), GetAnswer(j, status))
    ensures Run(max, hs, es + [GetAnswer(j, status)]) ==
            WithOutcome(Run(max, hs, es), j, Answer(status), Over(Answered(status)))
  {
    OneMore(max, hs, es, GetAnswer(j, status));
  }

  /** In one go, a request is chosen and its connection opened. */
  lemma {:induction false} ChooseAndOpen(max: int, s: Sys, k: nat)
    requires InRange(s) && Enabled(s, Choose(k))
    ensures InRange(Step(max, s, Choose(k)))
    ensures var j, t := |s.requests|, Step(max, Step(max, s, Choose(k)), Open(|s.requests|));
      && t.hs == s.hs && t.connections == Bump(s.connections, k, 1)
      && t.current == s.current && t.scanner == s.scanner
      && t.requests == s.requests + [Request(k, [], Net(max, s), Calling(k))]
  {
    StepInRange(max, s, Choose(k));
  }

  /** In one go, its connection is closed and a good answer clears the fail count. */
  lemma {:induction false} CloseAndClear(max: int, s: Sys, j: nat)
    requires InRange(s) && Enabled(s, Close(j))
    ensures InRange(Step(max, s, Close(j)))
    ensures var r, k, t := s.requests[j], s.requests[j].first, Step(max, Step(max, s, Close(j)), Clear(j));
      && t.hs == Cleared(s.hs, k, StatusOf(r.stage.end))
      && t.connections == Bump(s.connections, k, -1)
      && t.current == s.current && t.scanner == s.scanner
      && t.requests == s.requests[j := r.(stage := Done(r.stage.end))]
  {
    StepInRange(max, s, Close(j));
  }

  /** The later run is the earlier one, the choice of request j, and its own steps. */
  predicate GoesFromChoice(es: seq<Event>, es': seq<Event>, k: nat, j: nat) {
    es + [Choose(k)] <= es' && forall i :: |es| < i < |es'| ==> Own(es'[i], j)
  }

  lemma {:induction false} WholeRequest(es0: seq<Event>, es1: seq<Event>, es2: seq<Event>, k: nat, j: nat)
    requires es1 == es0 + [Choose(k)] + [Open(j)] && Goes(es1, es2, j)
    ensures GoesFromChoice(es0, es2 + [Close(j)] + [Clear(j)], k, j)
  {
    var es := es2 + [Close(j)] + [Clear(j)];
    forall i | |es0| < i < |es| ensures Own(es[i], j) {
      if i < |es1| {
        assert es[i] == es2[i] == es1[i] == Open(j);
      } else if i < |es2| {
        assert es[i] == es2[i];
      }
    }
  }

  /** How a failure that is followed by a scan of d places leaves request j. */
  function AfterFailure(r: Request, k: nat, alive: bool): Request {
    r.(outcomes := r.outcomes + [NoAnswer], stage := if alive then Calling(k) else Over(NobodyLeft))
  }

  /** In one go, from a call to the next: what the error handler does. */
  lemma {:induction false} FailAndScan(max: int, hs: seq<Health>, es: seq<Event>, j: nat, d: nat)
      returns (es': seq<Event>)
    requires var s := Run(max, hs, es);
      && Enabled(s, Count(j)) && s.scanner == None && 1 <= d <= |s.hs|
      && var after := FailAt(s.hs, s.requests[j].stage.backend, max);
         Dead(after, s.current, d - 1) && (after[Spot(s.current, d, |s.hs|)].alive || d == |s.hs|)
    ensures Goes(es, es', j)
    ensures var s, t := Run(max, hs, es), Run(max, hs, es');
      var i, k := s.requests[j].stage.backend, Spot(s.current, d, |s.hs|);
      && t.hs == FailAt(s.hs, i, max) && t.connections == s.connections
      && t.current == k && t.scanner == None
      && t.requests == s.requests[j := AfterFailure(s.requests[j], k, t.hs[k].alive)]
  {
    es' := FailAndMark(max, hs, es, j);
    es' := ScanInOneGo(max, hs, es', j, d);
  }

  /** The outcomes so far, by number. */
  predicate CameOut(r: Request, outcome: nat -> Outcome, calls: nat) {
    |r.outcomes| == calls && forall i :: 0 <= i < calls ==> r.outcomes[i] == outcome(i)
  }

  function Failures(outcome: nat -> Outcome, calls: nat, total: nat): int
    requires calls < total
  {
    if outcome(total - 1) == NoAnswer then total - calls else total - 1 - calls
  }

  /** Request j is being called for at backend k, and its calls so far came out so. */
  predicate Called(s: Sys, j: nat, k: nat, outcome: nat -> Outcome, calls: nat) {
    j < |s.requests| && s.requests[j].stage == Calling(k) && CameOut(s.requests[j], outcome, calls)
  }

  /** Its chain is over. */
  predicate Ends(s: Sys, j: nat, outcome: nat -> Outcome, total: nat, status: int) {
    && j < |s.requests| && s.requests[j].stage.Over? && StatusOf(s.requests[j].stage.end) == status
    && CameOut(s.requests[j], outcome, total)
  }

  /** Its chain began at backend k, and it is done. */
  predicate Served(s: Sys, j: nat, k: nat, outcome: nat -> Outcome, total: nat, status: int) {
    && j < |s.requests| && s.requests[j].first == k && s.requests[j].stage.Done?
    && StatusOf(s.requests[j].stage.end) == status && CameOut(s.requests[j], outcome, total)
  }

  /** From the run es to es' request j has taken steps and counted so many failures, each
      of a live backend; it has the same first backend, and connections are unchanged. */
  ghost predicate Fails(max: int, hs: seq<Health>, es: seq<Event>, es': seq<Event>, j: nat, failures: int) {
    var s, t := Run(max, hs, es), Run(max, hs, es');
    && Goes(es, es', j) && j < |s.requests| && j < |t.requests| && t.requests[j].first == s.requests[j].first
    && t.connections == s.connections && NoLess(s.hs, t.hs)
    && FailSum(t.hs) == FailSum(s.hs) + failures && Budget(t.hs, max) == Budget(s.hs, max) - failures
  }

  /** What becomes of calls numbered from `calls` to `total - 1`: the chain as far as the
      budget goes, ending in this status. */
  ghost predicate Ran(max: int, hs: seq<Health>, es: seq<Event>, es': seq<Event>, j: nat,
                      outcome: nat -> Outcome, calls: nat, status: int, total: nat) {
    && calls < total && Chain(outcome, calls, Budget(Run(max, hs, es).hs, max), status, total)
    && Fails(max, hs, es, es', j, Failures(outcome, calls, total))
    && Ends(Run(max, hs, es'), j, outcome, total, status)
    && (outcome(calls).Answer? ==> total == calls + 1 && Run(max, hs, es').hs == Run(max, hs, es).hs)
  }

  lemma {:induction false} RanAnswered(max: int, hs: seq<Health>, es: seq<Event>, j: nat, k: nat,
                                       outcome: nat -> Outcome, calls: nat)
    requires outcome(calls).Answer? && Called(Run(max, hs, es), j, k, outcome, calls)
    requires Budget(Run(max, hs, es).hs, max) > 0
    ensures Ran(max, hs, es, es + [GetAnswer(j, outcome(calls).status)], j,
                outcome, calls, outcome(calls).status, calls + 1)
    ensures Run(max, hs, es + [GetAnswer(j, outcome(calls).status)]) ==
            WithOutcome(Run(max, hs, es), j, outcome(calls), Over(Answered(outcome(calls).status)))
  {
    AnswerEnds(max, hs, es, j, outcome(calls).status);
  }

  /** The last failure of a chain: nobody is left. */
  lemma {:induction false} RanOut(max: int, hs: seq<Health>, es: seq<Event>, es': seq<Event>, j: nat,
                                  outcome: nat -> Outcome, calls: nat)
    requires outcome(calls) == NoAnswer && Fails(max, hs, es, es', j, 1)
    requires Ends(Run(max, hs, es'), j, outcome, calls + 1, 503) && Budget(Run(max, hs, es').hs, max) == 0
    ensures Ran(max, hs, es, es', j, outcome, calls, 503, calls + 1)
  {
  }

  /** One failure, and then the rest of the chain. */
  lemma {:induction false} RanOn(max: int, hs: seq<Health>, es: seq<Event>, mid: seq<Event>, es': seq<Event>, j: nat,
                                 outcome: nat -> Outcome, calls: nat, status: int, total: nat)
    requires outcome(calls) == NoAnswer && Fails(max, hs, es, mid, j, 1)
    requires Ran(max, hs, mid, es', j, outcome, calls + 1, status, total)
    ensures Ran(max, hs, es, es', j, outcome, calls, status, total)
  {
    GoesOn(es, mid, es', j);
    NoLessOn(Run(max, hs, es).hs, Run(max, hs, mid).hs, Run(max, hs, es').hs);
  }
}
