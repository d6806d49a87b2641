/** Requests that are proxied and retried (proxy/internal/balancer/balancer.go), as a
    protocol of small steps: a request's way through the balancer is cut wherever it
    releases a lock, and any number of requests and the health checks take their steps
    in any order.  How often one request can be retried, when it ends in 503, and what
    is different for a request that nobody disturbs. */
module Retries {
  import opened RoundRobin
  import opened Wrappers

  // ------------------------------------------------------ the retry budget

  /** A backend as the retry chain sees it. */
  datatype Health = Health(alive: bool, fails: nat)

  /** How many more failures a backend takes before it is marked down. */
  function Lives(h: Health, max: int): nat {
    if !h.alive then 0 else if max - h.fails > 1 then max - h.fails else 1
  }

  function Budget(hs: seq<Health>, max: int): nat {
    if hs == [] then 0 else Budget(hs[..|hs| - 1], max) + Lives(hs[|hs| - 1], max)
  }

  /** What the error handler does to the backend that failed, if nobody interferes. */
  function Fail(h: Health, max: int): Health {
    Health(h.alive && h.fails + 1 < max, h.fails + 1)
  }

  lemma {:induction false} BudgetUpdate(hs: seq<Health>, k: nat, h: Health, max: int)
    requires k < |hs|
    ensures Budget(hs[k := h], max) == Budget(hs, max) - Lives(hs[k], max) + Lives(h, max)
  {
    var n := |hs| - 1;
    if k < n {
      BudgetUpdate(hs[..n], k, h, max);
      assert hs[k := h][..n] == hs[..n][k := h];
    } else {
      assert hs[k := h][..n] == hs[..n];
    }
  }

  /** Every failure of a live backend uses up exactly one unit of the budget, whether
      it marks the backend down or not. */
  lemma {:induction false} FailureCostsOne(hs: seq<Health>, k: nat, max: int)
    requires k < |hs| && hs[k].alive
    ensures Budget(hs[k := Fail(hs[k], max)], max) == Budget(hs, max) - 1
  {
    BudgetUpdate(hs, k, Fail(hs[k], max), max);
  }

  lemma {:induction false} LivesCount(hs: seq<Health>, k: nat, max: int)
    requires k < |hs| && hs[k].alive
    ensures Budget(hs, max) >= Lives(hs[k], max) >= 1
  {
    if k < |hs| - 1 {
      LivesCount(hs[..|hs| - 1], k, max);
    }
  }

  lemma {:induction false} BudgetZeroIffDown(hs: seq<Health>, max: int)
    ensures Budget(hs, max) == 0 <==> forall i :: 0 <= i < |hs| ==> !hs[i].alive
  {
    if hs != [] {
      var n := |hs| - 1;
      BudgetZeroIffDown(hs[..n], max);
      assert forall i :: 0 <= i < n ==> hs[i] == hs[..n][i];
    }
  }

  /** All the failures counted. */
  function FailSum(hs: seq<Health>): nat {
    if hs == [] then 0 else FailSum(hs[..|hs| - 1]) + hs[|hs| - 1].fails
  }

  lemma {:induction false} FailSumUpdate(hs: seq<Health>, k: nat, h: Health)
    requires k < |hs|
    ensures FailSum(hs[k := h]) == FailSum(hs) - hs[k].fails + h.fails
  {
    var n := |hs| - 1;
    if k < n {
      FailSumUpdate(hs[..n], k, h);
      assert hs[k := h][..n] == hs[..n][k := h];
    } else {
      assert hs[k := h][..n] == hs[..n];
    }
  }

  function FailAt(hs: seq<Health>, k: nat, max: int): (after: seq<Health>)
    requires k < |hs|
    ensures |after| == |hs|
  {
    hs[k := Fail(hs[k], max)]
  }

  lemma {:induction false} FailAtCounts(hs: seq<Health>, k: nat, max: int)
    requires k < |hs|
    ensures FailSum(FailAt(hs, k, max)) == FailSum(hs) + 1 && NoLess(hs, FailAt(hs, k, max))
    ensures hs[k].alive ==> Budget(FailAt(hs, k, max), max) == Budget(hs, max) - 1
  {
    FailSumUpdate(hs, k, Fail(hs[k], max));
    if hs[k].alive {
      FailureCostsOne(hs, k, max);
    }
  }

  lemma {:induction false} NoLessOn(hs: seq<Health>, hs': seq<Health>, hs'': seq<Health>)
    requires NoLess(hs, hs') && NoLess(hs', hs'')
    ensures NoLess(hs, hs'')
  {
  }

  /** No fail count has fallen. */
  predicate NoLess(hs: seq<Health>, hs': seq<Health>) {
    |hs| == |hs'| && forall i :: 0 <= i < |hs| ==> hs[i].fails <= hs'[i].fails
  }

  // ------------------------------------------------------- the cyclic scan

  /** The place j steps after c, up to a full turn of n places. */
  function Spot(c: nat, j: nat, n: nat): (k: nat)
    requires c < n && j <= n
    ensures k < n
  {
    if c + j < n then c + j else c + j - n
  }

  /** So the place that `(c + 1) % n` gives is the next one. */
  lemma {:induction false} NextSpot(c: nat, n: nat)
    requires c < n
    ensures (c + 1) % n == Spot(c, 1, n)
  {
    if c + 1 < n {
      ModIs(c + 1, n, 0, c + 1);
    } else {
      ModIs(n, n, 1, 0);
    }
  }

  lemma {:induction false} FullTurn(alive: seq<bool>, initial: nat)
    requires initial < |alive| && forall j :: 1 <= j <= |alive| ==> !alive[Spot(initial, j, |alive|)]
    ensures true !in alive
  {
    forall i | 0 <= i < |alive| ensures !alive[i] {
      assert Spot(initial, if i > initial then i - initial else i + |alive| - initial, |alive|) == i;
    }
  }

  // -------------------------------------------------------------- the state

  /** What one call to a backend comes to: no answer, which starts the error handler,
      or an answer with its status, which is passed on. */
  datatype Outcome = NoAnswer | Answer(status: int)

  /** How a request's chain of calls ends: with an answer, or with 503 because the scan
      found nobody. */
  datatype End = Answered(status: int) | NobodyLeft

  /** Where a request stands.  Chosen: the strategy saw its first backend alive.
      Calling: a call is under way.  Failed: its failure has been counted.  Retrying: the
      backend has been marked down if need be.  Scanning: it holds the balancer's lock,
      began at `initial`, has looked at `looked` places, all since `revivals`.  Over:
      the chain has ended.  Closed: its connection is counted down.  Done: a good answer
      has cleared the fail count. */
  datatype Stage =
    | Chosen
    | Calling(backend: nat)
    | Failed(backend: nat, count: nat)
    | Retrying
    | Scanning(initial: nat, looked: nat, revivals: nat)
    | Over(end: End)
    | Closed(end: End)
    | Done(end: End)

  /** `first` is the backend that the strategy chose, `outcomes` how the calls so far
      came out, `entry` the budget when it was chosen, less what had been raised. */
  datatype Request = Request(first: nat, outcomes: seq<Outcome>, entry: int, stage: Stage)

  /** `scanner` holds the balancer's lock in NextBackend.  `raised` and `revivals` only
      record what resets and health checks have added to the budget so far, and how
      often a backend was found healthy. */
  datatype Sys = Sys(hs: seq<Health>, connections: seq<int>, current: nat, scanner: Option<nat>,
                     requests: seq<Request>, raised: int, revivals: nat)

  /** Calls made so far, the one under way included. */
  function Calls(r: Request): nat {
    |r.outcomes| + if r.stage.Calling? then 1 else 0
  }

  function Begin(hs: seq<Health>): Sys {
    Sys(hs, seq(|hs|, _ => 0), 0, None, [], 0, 0)
  }

  // -------------------------------------------------------------- the steps

  datatype Event =
    | Choose(backend: nat)
    | Open(j: nat)
    | GetAnswer(j: nat, status: int)
    | Count(j: nat)
    | Mark(j: nat)
    | Lock(j: nat)
    | Look(j: nat)
    | Close(j: nat)
    | Clear(j: nat)
    | CheckHealth(backend: nat, alive: bool)

  predicate Enabled(s: Sys, e: Event) {
    match e
    case Choose(k) => k < |s.hs| && s.hs[k].alive && s.scanner == None
    case CheckHealth(k, _) => k < |s.hs|
    case _ =>
      e.j < |s.requests| &&
      var stage := s.requests[e.j].stage;
      match e
      case Open(_) => stage.Chosen?
      case GetAnswer(_, _) => stage.Calling?
      case Count(_) => stage.Calling?
      case Mark(_) => stage.Failed?
      case Lock(_) => stage.Retrying? && s.scanner == None
      case Look(_) => stage.Scanning?
      case Close(_) => stage.Over?
      case _ => stage.Closed?
  }

  /** A step of request j. */
  predicate Own(e: Event, j: nat) {
    !e.Choose? && !e.CheckHealth? && e.j == j
  }

  /** The indices that a state holds are those of backends. */
  ghost predicate InRange(s: Sys) {
    && |s.connections| == |s.hs| && (s.hs != [] ==> s.current < |s.hs|)
    && forall j :: 0 <= j < |s.requests| ==> RequestInRange(s.requests[j], |s.hs|)
  }

  ghost predicate RequestInRange(r: Request, n: nat) {
    && r.first < n
    && (r.stage.Calling? || r.stage.Failed? ==> r.stage.backend < n)
  }

  function WithStage(s: Sys, j: nat, stage: Stage): Sys
    requires j < |s.requests|
  {
    s.(requests := s.requests[j := s.requests[j].(stage := stage)])
  }

  function WithOutcome(s: Sys, j: nat, o: Outcome, stage: Stage): Sys
    requires j < |s.requests|
  {
    var r := s.requests[j];
    s.(requests := s.requests[j := r.(outcomes := r.outcomes + [o], stage := stage)])
  }

  function WithHealth(s: Sys, k: nat, h: Health): Sys
    requires k < |s.hs|
  {
    s.(hs := s.hs[k := h])
  }

  function Raise(s: Sys, max: int, k: nat, h: Health): Sys
    requires k < |s.hs|
  {
    s.(hs := s.hs[k := h], raised := s.raised + Lives(h, max) - Lives(s.hs[k], max))
  }

  function LookStep(s: Sys, j: nat): Sys
    requires j < |s.requests| && s.requests[j].stage.Scanning? && s.current < |s.hs|
  {
    var stage := s.requests[j].stage;
    var next := Spot(s.current, 1, |s.hs|);
    var t := s.(current := next);
    if s.hs[next].alive then WithStage(t.(scanner := None), j, Calling(next))
    else if next == stage.initial then WithStage(t.(scanner := None), j, Over(NobodyLeft))
    else WithStage(t, j, stage.(looked := stage.looked + 1))
  }

  function Step(max: int, s: Sys, e: Event): Sys
    requires InRange(s)
  {
    if !Enabled(s, e) then s
    else match e
      case Choose(k) =>
        s.(requests := s.requests + [Request(k, [], Budget(s.hs, max) - s.raised, Chosen)])
      case CheckHealth(k, alive) =>
        if alive then Raise(s, max, k, Health(true, 0)).(revivals := s.revivals + 1)
        else WithHealth(s, k, s.hs[k].(alive := false))
      case Open(j) =>
        var k := s.requests[j].first;
        WithStage(s.(connections := s.connections[k := s.connections[k] + 1]), j, Calling(k))
      case GetAnswer(j, status) => WithOutcome(s, j, Answer(status), Over(Answered(status)))
      case Count(j) =>
        var k := s.requests[j].stage.backend;
        var count := s.hs[k].fails + 1;
        WithOutcome(WithHealth(s, k, s.hs[k].(fails := count)), j, NoAnswer, Failed(k, count))
      case Mark(j) =>
        var k, count := s.requests[j].stage.backend, s.requests[j].stage.count;
        WithStage(if count >= max then WithHealth(s, k, s.hs[k].(alive := false)) else s, j, Retrying)
      case Lock(j) => WithStage(s.(scanner := Some(j)), j, Scanning(s.current, 0, s.revivals))
      case Look(j) => LookStep(s, j)
      case Close(j) =>
        var k := s.requests[j].first;
        WithStage(s.(connections := s.connections[k := s.connections[k] - 1]), j, Closed(s.requests[j].stage.end))
      case Clear(j) =>
        var end, k := s.requests[j].stage.end, s.requests[j].first;
        var good := end.Answered? && end.status < 500;
        WithStage(if good then Raise(s, max, k, s.hs[k].(fails := 0)) else s, j, Done(end))
  }

  lemma {:induction false} StepInRange(max: int, s: Sys, e: Event)
    requires InRange(s)
    ensures InRange(Step(max, s, e)) && |Step(max, s, e).hs| == |s.hs|
    ensures |s.requests| <= |Step(max, s, e).requests|
  {
  }

  /** Other steps leave a request alone. */
  lemma {:induction false} OthersStay(max: int, s: Sys, e: Event, j: nat)
    requires InRange(s) && j < |s.requests| && !(Enabled(s, e) && Own(e, j))
    ensures Step(max, s, e).requests[j] == s.requests[j]
  {
  }

  /** What moves a backend: a failure of a call to it is counted, the request that has
      counted the limit marks it down, a health check sets it, and a request that was
      sent to it first and got an answer below 500 clears its count.  Nothing else does. */
  lemma {:induction false} BackendsMove(max: int, s: Sys, e: Event, k: nat)
    requires InRange(s) && k < |s.hs|
    ensures var h, t := s.hs[k], Step(max, s, e);
      t.hs[k] ==
        if !Enabled(s, e) then h
        else match e
          case CheckHealth(i, alive) => if i != k then h else Health(alive, if alive then 0 else h.fails)
          case Count(j) => if s.requests[j].stage.backend == k then Health(h.alive, h.fails + 1) else h
          case Mark(j) =>
            var stage := s.requests[j].stage;
            if stage.backend == k && stage.count >= max then Health(false, h.fails) else h
          case Clear(j) =>
            var r := s.requests[j];
            if r.first == k && r.stage.end.Answered? && r.stage.end.status < 500 then Health(h.alive, 0) else h
          case _ => h
  {
  }

  /** The state after a run; an event that is not enabled changes nothing. */
  ghost function Run(max: int, hs: seq<Health>, es: seq<Event>): (s: Sys)
    ensures InRange(s) && |s.hs| == |hs|
  {
    if es == [] then Begin(hs)
    else
      var s := Run(max, hs, es[..|es| - 1]);
      StepInRange(max, s, es[|es| - 1]);
      Step(max, s, es[|es| - 1])
  }

  // ------------------------------------------------- no more than the budget

  /** The budget, less what has been added to it. */
  function Net(max: int, s: Sys): int {
    Budget(s.hs, max) - s.raised
  }

  function Up(s: Sys, k: nat): nat
    requires k < |s.hs|
  {
    if s.hs[k].alive then 1 else 0
  }

  /** A change to one backend moves the budget by what its lives change, and taking it
      down takes at least one unit. */
  lemma {:induction false} OneChange(max: int, hs: seq<Health>, i: nat, h: Health, k: nat)
    requires i < |hs| && k < |hs| && (h.alive ==> hs[i].alive || h == Health(true, 0))
    ensures Budget(hs[i := h], max) == Budget(hs, max) + Lives(h, max) - Lives(hs[i], max)
    ensures hs[k].alive && !hs[i := h][k].alive ==> Lives(h, max) <= Lives(hs[i], max) - 1
  {
    BudgetUpdate(hs, i, h, max);
  }

  /** Nothing but resets and health checks adds to the budget, and whatever takes a
      backend down takes at least one unit away. */
  lemma {:induction false} NetFalls(max: int, s: Sys, e: Event, k: nat)
    requires InRange(s) && k < |s.hs|
    ensures var t := Step(max, s, e);
      t.raised >= s.raised && Net(max, t) <= Net(max, s) - if s.hs[k].alive && !t.hs[k].alive then 1 else 0
  {
    if Enabled(s, e) {
      match e
      case CheckHealth(i, alive) =>
        OneChange(max, s.hs, i, if alive then Health(true, 0) else s.hs[i].(alive := false), k);
      case Count(j) =>
        var i := s.requests[j].stage.backend;
        OneChange(max, s.hs, i, s.hs[i].(fails := s.hs[i].fails + 1), k);
      case Mark(j) =>
        var i := s.requests[j].stage.backend;
        OneChange(max, s.hs, i, s.hs[i].(alive := false), k);
      case Clear(j) =>
        var i := s.requests[j].first;
        OneChange(max, s.hs, i, s.hs[i].(fails := 0), k);
      case _ =>
    }
  }

  /** Counting a failure takes its unit at once, unless it is the backend's last one. */
  lemma {:induction false} CountTakesUnit(max: int, s: Sys, j: nat)
    requires InRange(s) && Enabled(s, Count(j))
    ensures var k, t := s.requests[j].stage.backend, Step(max, s, Count(j));
      Net(max, t) == Net(max, s) - if Lives(s.hs[k], max) > 1 then 1 else 0
  {
    var k := s.requests[j].stage.backend;
    BudgetUpdate(s.hs, k, s.hs[k].(fails := s.hs[k].fails + 1), max);
  }

  /** What a request's calls have used of what was there when it was chosen, and of what
      has been added since.  A call that is under way need not have used its unit yet if
      its backend is still up. */
  ghost predicate Paid(max: int, s: Sys, r: Request)
    requires RequestInRange(r, |s.hs|)
  {
    var left := r.entry - |r.outcomes|;
    match r.stage
    case Chosen => Net(max, s) <= left - 1 + Up(s, r.first)
    case Calling(k) => Net(max, s) <= left - 1 + Up(s, k)
    case Failed(k, count) => Net(max, s) <= left + if count >= max then Up(s, k) else 0
    case Retrying => Net(max, s) <= left
    case Scanning(_, _, _) => Net(max, s) <= left
    case _ => left + s.raised >= 0
  }

  /** The request's own step. */
  lemma {:induction false} OwnStepPaid(max: int, s: Sys, e: Event, j: nat)
    requires InRange(s) && j < |s.requests| && Paid(max, s, s.requests[j])
    requires Enabled(s, e) && Own(e, j)
    ensures InRange(Step(max, s, e)) && Paid(max, Step(max, s, e), Step(max, s, e).requests[j])
  {
    StepInRange(max, s, e);
    var r := s.requests[j];
    match e
    case GetAnswer(_, _) =>
      if s.hs[r.stage.backend].alive {
        LivesCount(s.hs, r.stage.backend, max);
      }
    case Count(_) => CountTakesUnit(max, s, j);
    case Mark(_) => NetFalls(max, s, e, r.stage.backend);
    case Clear(_) => NetFalls(max, s, e, r.first);
    case _ =>
  }

  lemma {:induction false} PaidStep(max: int, s: Sys, e: Event, j: nat)
    requires InRange(s) && j < |Step(max, s, e).requests|
    requires j < |s.requests| ==> Paid(max, s, s.requests[j])
    ensures InRange(Step(max, s, e)) && Paid(max, Step(max, s, e), Step(max, s, e).requests[j])
  {
    StepInRange(max, s, e);
    if j < |s.requests| {
      var r := s.requests[j];
      if Enabled(s, e) && Own(e, j) {
        OwnStepPaid(max, s, e, j);
      } else {
        NetFalls(max, s, e, r.first);
        if r.stage.Calling? || r.stage.Failed? {
          NetFalls(max, s, e, r.stage.backend);
        }
      }
    }
  }

  lemma {:induction false} AllPaid(max: int, hs: seq<Health>, es: seq<Event>, j: nat)
    requires j < |Run(max, hs, es).requests|
    ensures Paid(max, Run(max, hs, es), Run(max, hs, es).requests[j])
  {
    if es != [] {
      var s := Run(max, hs, es[..|es| - 1]);
      if j < |s.requests| {
        AllPaid(max, hs, es[..|es| - 1], j);
      }
      PaidStep(max, s, es[|es| - 1], j);
    }
  }

  lemma {:induction false} CallsWithinEntry(max: int, hs: seq<Health>, es: seq<Event>, j: nat)
    requires j < |Run(max, hs, es).requests|
    ensures var s := Run(max, hs, es); var r := s.requests[j]; Calls(r) <= r.entry + s.raised
  {
    AllPaid(max, hs, es, j);
    var s := Run(max, hs, es);
    var r := s.requests[j];
    if (r.stage.Calling? || r.stage.Failed?) && s.hs[r.stage.backend].alive {
      LivesCount(s.hs, r.stage.backend, max);
    }
  }

  /** A request's own step changes no other request and not its first backend. */
  lemma {:induction false} OwnStepIsLocal(max: int, s: Sys, e: Event)
    requires InRange(s) && Enabled(s, e) && !e.Choose? && !e.CheckHealth?
    ensures var rs, t := s.requests, Step(max, s, e);
      && |t.requests| == |rs| && t.requests == rs[e.j := t.requests[e.j]]
      && t.requests[e.j].first == rs[e.j].first && t.requests[e.j].entry == rs[e.j].entry
  {
  }

  lemma {:induction false} EntryStays(max: int, hs: seq<Health>, before: seq<Event>, k: nat, es: seq<Event>)
    requires Enabled(Run(max, hs, before), Choose(k)) && before + [Choose(k)] <= es
    ensures var s, t := Run(max, hs, before), Run(max, hs, es);
      |s.requests| < |t.requests| && t.requests[|s.requests|].entry == Net(max, s)
  {
    if es == before + [Choose(k)] {
      assert es[..|es| - 1] == before;
    } else {
      var t, e := Run(max, hs, es[..|es| - 1]), es[|es| - 1];
      EntryStays(max, hs, before, k, es[..|es| - 1]);
      StepInRange(max, t, e);
      if Enabled(t, e) && !e.Choose? && !e.CheckHealth? {
        OwnStepIsLocal(max, t, e);
      }
    }
  }

  /** However the requests interleave: no request is called for more often than the
      budget was when it was chosen, and what resets and health checks have added
      since.  Failures of other requests only make it fewer. */
  lemma {:induction false} CallsWithinBudget(max: int, hs: seq<Health>, before: seq<Event>, k: nat, es: seq<Event>)
    requires Enabled(Run(max, hs, before), Choose(k)) && before + [Choose(k)] <= es
    ensures var s, t := Run(max, hs, before), Run(max, hs, es);
      && |s.requests| < |t.requests|
      && Calls(t.requests[|s.requests|]) <= Budget(s.hs, max) + t.raised - s.raised
  {
    EntryStays(max, hs, before, k, es);
    CallsWithinEntry(max, hs, es, |Run(max, hs, before).requests|);
  }

  // ------------------------------------------------------ the shape of a chain

  predicate Unanswered(os: seq<Outcome>) {
    forall i :: 0 <= i < |os| ==> os[i] == NoAnswer
  }

  predicate Ended(stage: Stage) { stage.Over? || stage.Closed? || stage.Done? }

  /** A chain stops at its first answer, and without one it is not over before the scan
      has found nobody. */
  ghost predicate Shaped(r: Request) {
    var os := r.outcomes;
    if Ended(r.stage) && r.stage.end.Answered?
    then os != [] && Unanswered(os[..|os| - 1]) && os[|os| - 1] == Answer(r.stage.end.status)
    else Unanswered(os) && (r.stage.Chosen? ==> os == []) && (os == [] ==> r.stage.Chosen? || r.stage.Calling?)
  }

  lemma {:induction false} AnswerIsShaped(max: int, s: Sys, j: nat, status: int)
    requires InRange(s) && Enabled(s, GetAnswer(j, status)) && Shaped(s.requests[j])
    ensures Shaped(Step(max, s, GetAnswer(j, status)).requests[j])
  {
    var os := s.requests[j].outcomes;
    assert (os + [Answer(status)])[..|os|] == os;
  }

  lemma {:induction false} ShapedStep(max: int, s: Sys, e: Event, j: nat)
    requires InRange(s) && j < |s.requests| && Shaped(s.requests[j]) && Enabled(s, e) && Own(e, j)
    ensures Shaped(Step(max, s, e).requests[j])
  {
    var r, t := s.requests[j], Step(max, s, e).requests[j];
    if e.GetAnswer? {
      AnswerIsShaped(max, s, j, e.status);
    } else if e.Count? {
      assert t.outcomes == r.outcomes + [NoAnswer];
    } else {
      assert t.outcomes == r.outcomes;
    }
  }

  lemma {:induction false} ChainsAreShaped(max: int, hs: seq<Health>, es: seq<Event>, j: nat)
    requires j < |Run(max, hs, es).requests|
    ensures Shaped(Run(max, hs, es).requests[j])
  {
    if es != [] {
      var s, e := Run(max, hs, es[..|es| - 1]), es[|es| - 1];
      if j < |s.requests| {
        ChainsAreShaped(max, hs, es[..|es| - 1], j);
        if Enabled(s, e) && Own(e, j) {
          ShapedStep(max, s, e, j);
        } else {
          OthersStay(max, s, e, j);
        }
      }
    }
  }

  /** How many steps request j has taken. */
  ghost function OwnSteps(max: int, hs: seq<Health>, es: seq<Event>, j: nat): nat {
    if es == [] then 0
    else
      var s, e := Run(max, hs, es[..|es| - 1]), es[|es| - 1];
      OwnSteps(max, hs, es[..|es| - 1], j) +
        if Enabled(s, e) && Own(e, j) then 1 else 0
  }

  /** The steps that a request has taken by a stage, apart from its finished calls. */
  function StepsBy(stage: Stage, n: nat): int {
    match stage
    case Chosen => 0
    case Calling(_) => 1
    case Failed(_, _) => 2 - (n + 3)
    case Retrying => 3 - (n + 3)
    case Scanning(_, looked, _) => 4 + looked - (n + 3)
    case Over(_) => 2
    case Closed(_) => 3
    case Done(_) => 4
  }

  /** No more steps than this by where a request stands. */
  function StepLimit(r: Request, n: nat): int {
    StepsBy(r.stage, n) + |r.outcomes| * (n + 3)
  }

  lemma {:induction false} StepTakesOne(max: int, s: Sys, e: Event, j: nat)
    requires InRange(s) && ScanOk(s) && j < |s.requests| && Enabled(s, e) && Own(e, j)
    ensures StepLimit(s.requests[j], |s.hs|) + 1 <= StepLimit(Step(max, s, e).requests[j], |s.hs|)
  {
    var r, t := s.requests[j], Step(max, s, e).requests[j];
    assert |t.outcomes| == |r.outcomes| + if e.GetAnswer? || e.Count? then 1 else 0;
    MoreTimes(|r.outcomes|, |t.outcomes|, |s.hs| + 3);
  }

  lemma {:induction false} MoreTimes(m: nat, n: nat, x: nat)
    requires m <= n <= m + 1
    ensures n * x == m * x + if n == m then 0 else x
  {
  }

  lemma {:induction false} NoStepsBefore(max: int, hs: seq<Health>, es: seq<Event>, j: nat)
    requires j >= |Run(max, hs, es).requests|
    ensures OwnSteps(max, hs, es, j) == 0
  {
    if es != [] {
      StepInRange(max, Run(max, hs, es[..|es| - 1]), es[|es| - 1]);
      NoStepsBefore(max, hs, es[..|es| - 1], j);
    }
  }

  lemma {:induction false} StepsAreBounded(max: int, hs: seq<Health>, es: seq<Event>, j: nat)
    requires j < |Run(max, hs, es).requests|
    ensures OwnSteps(max, hs, es, j) <= StepLimit(Run(max, hs, es).requests[j], |hs|)
  {
    if es != [] {
      var s, e := Run(max, hs, es[..|es| - 1]), es[|es| - 1];
      if j >= |s.requests| {
        NoStepsBefore(max, hs, es[..|es| - 1], j);
      } else {
        StepsAreBounded(max, hs, es[..|es| - 1], j);
        ScansAreOk(max, hs, es[..|es| - 1]);
        if Enabled(s, e) && Own(e, j) {
          StepTakesOne(max, s, e, j);
        } else {
          OthersStay(max, s, e, j);
        }
      }
    }
  }

  /** However the requests interleave, every chain ends: a request takes at most as many
      steps of its own as the budget that it can use allows, a whole scan for each call. */
  lemma {:induction false} ChainsEnd(max: int, hs: seq<Health>, es: seq<Event>, j: nat)
    requires j < |Run(max, hs, es).requests|
    ensures var s := Run(max, hs, es); var r := s.requests[j];
      OwnSteps(max, hs, es, j) <= 4 + (r.entry + s.raised) * (|hs| + 3)
  {
    var s := Run(max, hs, es);
    StepsAreBounded(max, hs, es, j);
    CallsWithinEntry(max, hs, es, j);
    ScansAreOk(max, hs, es);
    StepLimitAtMost(s.requests[j], |hs|, s.requests[j].entry + s.raised);
  }

  lemma {:induction false} StepLimitAtMost(r: Request, n: nat, calls: int)
    requires |r.outcomes| <= calls && (r.stage.Scanning? ==> r.stage.looked < n)
    ensures StepLimit(r, n) <= 4 + calls * (n + 3)
  {
    MulMonotone(n + 3, |r.outcomes|, calls);
  }

  // ---------------------------------------------------------------- the scan

  ghost predicate Dead(hs: seq<Health>, initial: nat, looked: nat) {
    initial < |hs| && looked <= |hs| && forall m :: 1 <= m <= looked ==> !hs[Spot(initial, m, |hs|)].alive
  }

  lemma {:induction false} AllDown(hs: seq<Health>, initial: nat)
    requires initial < |hs| && Dead(hs, initial, |hs|)
    ensures forall k :: 0 <= k < |hs| ==> !hs[k].alive
  {
    var alive := seq(|hs|, k requires 0 <= k < |hs| => hs[k].alive);
    FullTurn(alive, initial);
    assert forall k :: 0 <= k < |hs| ==> alive[k] == hs[k].alive;
  }

  /** How far a scan has got.  The places it has looked at are down, unless a backend was
      found healthy since it began. */
  ghost predicate Progress(s: Sys, stage: Stage) {
    && stage.Scanning? && stage.initial < |s.hs| && stage.looked < |s.hs|
    && s.current == Spot(stage.initial, stage.looked, |s.hs|)
    && stage.revivals <= s.revivals
    && (stage.revivals == s.revivals ==> Dead(s.hs, stage.initial, stage.looked))
  }

  ghost predicate OneScans(s: Sys) {
    forall j :: 0 <= j < |s.requests| ==> (s.requests[j].stage.Scanning? <==> s.scanner == Some(j))
  }

  /** One request at a time scans. */
  ghost predicate ScanOk(s: Sys) {
    OneScans(s) && (s.scanner.Some? ==>
      s.scanner.value < |s.requests| && Progress(s, s.requests[s.scanner.value].stage))
  }

  lemma {:induction false} OneStillScans(max: int, s: Sys, e: Event)
    requires InRange(s) && OneScans(s)
    ensures OneScans(Step(max, s, e))
  {
    forall j | 0 <= j < |Step(max, s, e).requests|
      ensures Step(max, s, e).requests[j].stage.Scanning? <==> Step(max, s, e).scanner == Some(j)
    {
      if j < |s.requests| && !(Enabled(s, e) && Own(e, j)) {
        OthersStay(max, s, e, j);
      }
    }
  }

  lemma {:induction false} LookProgress(max: int, s: Sys, j: nat)
    requires InRange(s) && Enabled(s, Look(j)) && s.scanner == Some(j) && Progress(s, s.requests[j].stage)
    ensures var t := LookStep(s, j); t.scanner == s.scanner ==> Progress(t, t.requests[j].stage)
    ensures var t, stage := LookStep(s, j), s.requests[j].stage;
      t.requests[j].stage == Over(NobodyLeft) && stage.revivals == s.revivals ==> Dead(s.hs, stage.initial, |s.hs|)
  {
    var stage := s.requests[j].stage;
  }

  lemma {:induction false} ProgressStays(max: int, s: Sys, e: Event, stage: Stage)
    requires InRange(s) && Progress(s, stage) && Enabled(s, e) && !e.Look?
    ensures Progress(Step(max, s, e), stage)
  {
  }

  lemma {:induction false} LockProgress(max: int, s: Sys, j: nat)
    requires InRange(s) && Enabled(s, Lock(j))
    ensures var t := Step(max, s, Lock(j)); t.scanner == Some(j) && Progress(t, t.requests[j].stage)
  {
  }

  lemma {:induction false} ScanStepOk(max: int, s: Sys, e: Event)
    requires InRange(s) && ScanOk(s)
    ensures ScanOk(Step(max, s, e))
  {
    OneStillScans(max, s, e);
    if Enabled(s, e) {
      if e.Look? {
        LookProgress(max, s, e.j);
      } else if e.Lock? {
        LockProgress(max, s, e.j);
      } else if s.scanner.Some? {
        OthersStay(max, s, e, s.scanner.value);
        ProgressStays(max, s, e, s.requests[s.scanner.value].stage);
      }
    }
  }

  lemma {:induction false} ScansAreOk(max: int, hs: seq<Health>, es: seq<Event>)
    ensures ScanOk(Run(max, hs, es))
  {
    if es != [] {
      ScansAreOk(max, hs, es[..|es| - 1]);
      ScanStepOk(max, Run(max, hs, es[..|es| - 1]), es[|es| - 1]);
    }
  }

  /** A request ends in 503 only when every backend is down, unless one was found
      healthy while it scanned, however many others fail meanwhile. */
  lemma {:induction false} NobodyLeftMeansDown(max: int, hs: seq<Health>, es: seq<Event>, j: nat)
    requires var s := Run(max, hs, es); Enabled(s, Look(j)) && s.requests[j].stage.revivals == s.revivals
    requires Step(max, Run(max, hs, es), Look(j)).requests[j].stage == Over(NobodyLeft)
    ensures forall k :: 0 <= k < |hs| ==> !Run(max, hs, es).hs[k].alive
  {
    ScansAreOk(max, hs, es);
    var s := Run(max, hs, es);
    LookProgress(max, s, j);
    AllDown(s.hs, s.requests[j].stage.initial);
  }

  function ScanAt(s: Sys, j: nat, current: nat, scanner: Option<nat>, stage: Stage): Sys
    requires j < |s.requests|
  {
    WithStage(s.(current := current, scanner := scanner), j, stage)
  }

  /** The state after `looked` places in a scan that began in state s. */
  function Underway(s: Sys, j: nat, looked: nat): Sys
    requires j < |s.requests| && s.current < |s.hs| && looked <= |s.hs|
  {
    ScanAt(s, j, Spot(s.current, looked, |s.hs|), Some(j), Scanning(s.current, looked, s.revivals))
  }

  function AfterLook(s: Sys, j: nat, looked: nat): Sys
    requires j < |s.requests| && s.current < |s.hs| && looked <= |s.hs|
  {
    var k := Spot(s.current, looked, |s.hs|);
    if s.hs[k].alive then ScanAt(s, j, k, None, Calling(k))
    else if looked == |s.hs| then ScanAt(s, j, k, None, Over(NobodyLeft))
    else Underway(s, j, looked)
  }

  lemma {:induction false} OneLook(max: int, s: Sys, j: nat, looked: nat)
    requires InRange(s) && j < |s.requests| && looked < |s.hs|
    ensures InRange(Underway(s, j, looked))
    ensures Step(max, Underway(s, j, looked), Look(j)) == AfterLook(s, j, looked + 1)
  {
  }

  lemma {:induction false} FirstLock(max: int, s: Sys, j: nat)
    requires InRange(s) && Enabled(s, Lock(j)) && s.hs != []
    ensures Step(max, s, Lock(j)) == Underway(s, j, 0)
  {
  }

  lemma {:induction false} OneMore(max: int, hs: seq<Health>, es: seq<Event>, e: Event)
    ensures Run(max, hs, es + [e]) == Step(max, Run(max, hs, es), e)
  {
    assert (es + [e])[..|es|] == es;
  }

  lemma {:induction false} DeadLook(max: int, hs: seq<Health>, es: seq<Event>, s: Sys, j: nat, m: nat)
    requires InRange(s) && j < |s.requests| && m + 1 < |s.hs| && Dead(s.hs, s.current, m + 1)
    requires Run(max, hs, es) == Underway(s, j, m)
    ensures Run(max, hs, es + [Look(j)]) == Underway(s, j, m + 1)
  {
    OneLook(max, s, j, m);
    OneMore(max, hs, es, Look(j));
  }

  lemma {:induction false} TwoMore(max: int, hs: seq<Health>, es: seq<Event>, e: Event, e': Event)
    ensures InRange(Step(max, Run(max, hs, es), e))
    ensures Run(max, hs, es + [e] + [e']) == Step(max, Step(max, Run(max, hs, es), e), e')
  {
    OneMore(max, hs, es, e);
    OneMore(max, hs, es + [e], e');
  }

  /** The later run is the earlier one and steps of request j alone. */
  predicate Goes(es: seq<Event>, es': seq<Event>, j: nat) {
    es <= es' && forall i :: |es| <= i < |es'| ==> Own(es'[i], j)
  }

  lemma {:induction false} GoesOn(es: seq<Event>, es': seq<Event>, es'': seq<Event>, j: nat)
    requires Goes(es, es', j) && Goes(es', es'', j)
    ensures Goes(es, es'', j)
  {
    forall i | |es| <= i < |es''| ensures Own(es''[i], j) {
      if i < |es'| {
        assert es''[i] == es'[i];
      }
    }
  }

  lemma {:induction false} LooksPassDead(max: int, hs: seq<Health>, es: seq<Event>, s: Sys, j: nat, looked: nat, m: nat)
      returns (es': seq<Event>)
    requires InRange(s) && j < |s.requests| && looked <= m < |s.hs| && Dead(s.hs, s.current, m)
    requires Run(max, hs, es) == Underway(s, j, looked)
    ensures Goes(es, es', j) && Run(max, hs, es') == Underway(s, j, m)
    decreases m - looked
  {
    es' := es;
    if looked < m {
      DeadLook(max, hs, es, s, j, looked);
      es' := LooksPassDead(max, hs, es + [Look(j)], s, j, looked + 1, m);
    }
  }

  /** In one go, the scan gives the next live backend in cyclic order, d places on, or
      nobody after a full turn. */
  lemma {:induction false} ScanInOneGo(max: int, hs: seq<Health>, es: seq<Event>, j: nat, d: nat)
      returns (es': seq<Event>)
    requires var s := Run(max, hs, es);
      && Enabled(s, Lock(j)) && 1 <= d <= |s.hs| && Dead(s.hs, s.current, d - 1)
      && (s.hs[Spot(s.current, d, |s.hs|)].alive || d == |s.hs|)
    ensures Goes(es, es', j)
    ensures var s := Run(max, hs, es); var k := Spot(s.current, d, |s.hs|);
      Run(max, hs, es') == ScanAt(s, j, k, None, if s.hs[k].alive then Calling(k) else Over(NobodyLeft))
  {
    var s := Run(max, hs, es);
    FirstLock(max, s, j);
    OneMore(max, hs, es, Lock(j));
    es' := LooksPassDead(max, hs, es + [Lock(j)], s, j, 0, d - 1);
    OneLook(max, s, j, d - 1);
    OneMore(max, hs, es', Look(j));
    es' := es' + [Look(j)];
  }

  /** In one go, a failure is counted and the backend marked down at the limit. */
  lemma {:induction false} FailInOneGo(max: int, s: Sys, j: nat)
    requires InRange(s) && Enabled(s, Count(j))
    ensures InRange(Step(max, s, Count(j)))
    ensures var k := s.requests[j].stage.backend;
      Step(max, Step(max, s, Count(j)), Mark(j)) ==
        WithOutcome(WithHealth(s, k, Fail(s.hs[k], max)), j, NoAnswer, Retrying)
  {
    StepInRange(max, s, Count(j));
  }

  // ------------------------------------------------------- open connections

  predicate IsOpen(stage: Stage) { !stage.Chosen? && !stage.Closed? && !stage.Done? }

  /** How many requests hold a connection to the backend that was chosen for them. */
  function OpenAt(rs: seq<Request>, k: nat): nat {
    if rs == [] then 0
    else
      var r := rs[|rs| - 1];
      OpenAt(rs[..|rs| - 1], k) + if r.first == k && IsOpen(r.stage) then 1 else 0
  }

  lemma {:induction false} OpenUpdate(rs: seq<Request>, j: nat, r: Request, k: nat)
    requires j < |rs| && r.first == rs[j].first
    ensures OpenAt(rs[j := r], k) == OpenAt(rs, k) +
      if r.first != k || IsOpen(r.stage) == IsOpen(rs[j].stage) then 0 else if IsOpen(r.stage) then 1 else -1
  {
    var n := |rs| - 1;
    if j < n {
      OpenUpdate(rs[..n], j, r, k);
      assert rs[j := r][..n] == rs[..n][j := r];
    } else {
      assert rs[j := r][..n] == rs[..n];
    }
  }

  lemma {:induction false} OwnStepConnects(max: int, s: Sys, e: Event, k: nat)
    requires InRange(s) && k < |s.hs| && Enabled(s, e) && !e.Choose? && !e.CheckHealth?
    ensures InRange(Step(max, s, e))
    ensures var r, t := s.requests[e.j], Step(max, s, e);
      t.connections[k] == s.connections[k] +
        if r.first != k || IsOpen(t.requests[e.j].stage) == IsOpen(r.stage) then 0
        else if IsOpen(r.stage) then -1 else 1
  {
    StepInRange(max, s, e);
  }

  lemma {:induction false} StepConnects(max: int, s: Sys, e: Event, k: nat)
    requires InRange(s) && k < |s.hs|
    ensures InRange(Step(max, s, e))
    ensures Step(max, s, e).connections[k] - s.connections[k] ==
            OpenAt(Step(max, s, e).requests, k) - OpenAt(s.requests, k)
  {
    StepInRange(max, s, e);
    var t := Step(max, s, e);
    if Enabled(s, e) && e.Choose? {
      assert t.requests[..|s.requests|] == s.requests;
    } else if Enabled(s, e) && !e.CheckHealth? {
      OwnStepIsLocal(max, s, e);
      OwnStepConnects(max, s, e, k);
      OpenUpdate(s.requests, e.j, t.requests[e.j], k);
    }
  }

  /** Connection counts come out even: at any time a backend has as many as requests
      that were sent to it first and are still open, so none when all are closed. */
  lemma {:induction false} ConnectionsComeOutEven(max: int, hs: seq<Health>, es: seq<Event>, k: nat)
    requires k < |hs|
    ensures Run(max, hs, es).connections[k] == OpenAt(Run(max, hs, es).requests, k)
  {
    if es != [] {
      ConnectionsComeOutEven(max, hs, es[..|es| - 1], k);
      StepConnects(max, Run(max, hs, es[..|es| - 1]), es[|es| - 1], k);
    }
  }

  // ------------------------------------------------- a request on its own

  /** How a chain of calls numbered from `calls` to `total - 1` may go with this budget:
      it stops at the first answer, which is passed on, or it makes exactly as many
      calls as the budget allows, none of them answered, and ends in 503. */
  ghost predicate Chain(outcome: nat -> Outcome, calls: nat, budget: int, status: int, total: nat) {
    && calls < total <= calls + budget
    && (forall j :: calls <= j < total - 1 ==> outcome(j) == NoAnswer)
    && match outcome(total - 1)
       case Answer(code) => status == code
       case NoAnswer => status == 503 && total == calls + budget
  }

  function StatusOf(end: End): int {
    if end.Answered? then end.status else 503
  }

  function OutcomeOf(r: Request): nat -> Outcome {
    (i: nat) => if i < |r.outcomes| then r.outcomes[i] else NoAnswer
  }

  /** A step that leaves request j alone with the backends: its own, or one that changes
      neither what is up nor a fail count. */
  predicate Undisturbing(e: Event, j: nat) {
    match e
    case CheckHealth(_, _) => false
    case Count(i) => i == j
    case Mark(i) => i == j
    case Clear(i) => i == j
    case _ => true
  }

  /** What the calls of a request have used exactly, out of budget b, if it is alone. */
  ghost predicate PaidExactly(max: int, s: Sys, r: Request, b: int)
    requires RequestInRange(r, |s.hs|)
  {
    var left := b - |r.outcomes|;
    match r.stage
    case Chosen => Budget(s.hs, max) == left && s.hs[r.first].alive
    case Calling(k) => Budget(s.hs, max) == left && s.hs[k].alive
    case Failed(k, count) =>
      s.hs[k] == Health(true, count) && Budget(s.hs, max) == left + if count >= max then 1 else 0
    case Retrying => Budget(s.hs, max) == left
    case Scanning(_, _, revivals) => Budget(s.hs, max) == left && revivals == s.revivals
    case _ => if r.stage.end.NobodyLeft? then left == 0 else left >= 0
  }

  lemma {:induction false} ExactOwnStep(max: int, s: Sys, e: Event, j: nat, b: int)
    requires InRange(s) && ScanOk(s) && j < |s.requests| && PaidExactly(max, s, s.requests[j], b)
    requires Enabled(s, e) && Own(e, j)
    ensures InRange(Step(max, s, e)) && PaidExactly(max, Step(max, s, e), Step(max, s, e).requests[j], b)
  {
    StepInRange(max, s, e);
    var r := s.requests[j];
    match e
    case GetAnswer(_, _) => LivesCount(s.hs, r.stage.backend, max);
    case Count(_) => CountTakesUnit(max, s, j);
    case Mark(_) => BudgetUpdate(s.hs, r.stage.backend, s.hs[r.stage.backend].(alive := false), max);
    case Look(_) =>
      LookProgress(max, s, j);
      if Step(max, s, e).requests[j].stage == Over(NobodyLeft) {
        AllDown(s.hs, r.stage.initial);
        BudgetZeroIffDown(s.hs, max);
      }
    case _ =>
  }

  lemma {:induction false} ExactStep(max: int, s: Sys, e: Event, j: nat, b: int)
    requires InRange(s) && ScanOk(s) && j < |s.requests| && PaidExactly(max, s, s.requests[j], b)
    requires Undisturbing(e, j)
    ensures InRange(Step(max, s, e)) && PaidExactly(max, Step(max, s, e), Step(max, s, e).requests[j], b)
  {
    if Enabled(s, e) && Own(e, j) {
      ExactOwnStep(max, s, e, j, b);
    } else {
      StepInRange(max, s, e);
      OthersStay(max, s, e, j);
    }
  }

  /** The run goes on from `before` with the choice of a request, which nobody disturbs. */
  ghost predicate AloneAfter(max: int, hs: seq<Health>, before: seq<Event>, k: nat, es: seq<Event>) {
    && Enabled(Run(max, hs, before), Choose(k)) && before + [Choose(k)] <= es
    && forall i :: |before| < i < |es| ==> Undisturbing(es[i], |Run(max, hs, before).requests|)
  }

  lemma {:induction false} ChosenPaysExactly(max: int, hs: seq<Health>, before: seq<Event>, k: nat)
    requires Enabled(Run(max, hs, before), Choose(k))
    ensures var s, t := Run(max, hs, before), Run(max, hs, before + [Choose(k)]);
      |t.requests| == |s.requests| + 1 && PaidExactly(max, t, t.requests[|s.requests|], Budget(s.hs, max))
  {
    OneMore(max, hs, before, Choose(k));
  }

  lemma {:induction false} AloneBefore(max: int, hs: seq<Health>, before: seq<Event>, k: nat, es: seq<Event>)
    requires AloneAfter(max, hs, before, k, es) && es != before + [Choose(k)]
    ensures var n := |es| - 1;
      n > |before| && AloneAfter(max, hs, before, k, es[..n]) && Undisturbing(es[n], |Run(max, hs, before).requests|)
  {
  }

  lemma {:induction false} AlonePaysExactly(max: int, hs: seq<Health>, before: seq<Event>, k: nat, es: seq<Event>)
    requires AloneAfter(max, hs, before, k, es)
    ensures var s, t := Run(max, hs, before), Run(max, hs, es);
      var j := |s.requests|;
      j < |t.requests| && PaidExactly(max, t, t.requests[j], Budget(s.hs, max))
  {
    if es == before + [Choose(k)] {
      ChosenPaysExactly(max, hs, before, k);
    } else {
      var s, n := Run(max, hs, before), |es| - 1;
      AloneBefore(max, hs, before, k, es);
      AlonePaysExactly(max, hs, before, k, es[..n]);
      ScansAreOk(max, hs, es[..n]);
      StepInRange(max, Run(max, hs, es[..n]), es[n]);
      ExactStep(max, Run(max, hs, es[..n]), es[n], |s.requests|, Budget(s.hs, max));
    }
  }

  lemma {:induction false} ShapedIsChain(r: Request, b: nat)
    requires Shaped(r) && Ended(r.stage) && |r.outcomes| <= b && (r.stage.end.NobodyLeft? ==> |r.outcomes| == b)
    ensures Chain(OutcomeOf(r), 0, b, StatusOf(r.stage.end), |r.outcomes|)
  {
    var os := r.outcomes;
    assert forall i :: 0 <= i < |os| - 1 ==> os[..|os| - 1][i] == os[i];
  }

  /** A request that nobody disturbs from its choice on stops at the first answer, or is
      called for exactly as often as the budget was then and ends in 503. */
  lemma {:induction false} AloneUsesTheBudget(max: int, hs: seq<Health>, before: seq<Event>, k: nat, es: seq<Event>)
    requires AloneAfter(max, hs, before, k, es)
    ensures var s, t := Run(max, hs, before), Run(max, hs, es);
      var j := |s.requests|;
      j < |t.requests| && var r := t.requests[j];
      Ended(r.stage) ==> Chain(OutcomeOf(r), 0, Budget(s.hs, max), StatusOf(r.stage.end), |r.outcomes|)
  {
    var j := |Run(max, hs, before).requests|;
    AlonePaysExactly(max, hs, before, k, es);
    ChainsAreShaped(max, hs, es, j);
    var r := Run(max, hs, es).requests[j];
    if Ended(r.stage) {
      ShapedIsChain(r, Budget(Run(max, hs, before).hs, max));
    }
  }

  // ------------------------------------------------ when others fail too

  /** How far on the next live backend is, or a full turn. */
  lemma {:induction false} NextAlive(hs: seq<Health>, current: nat, from: nat) returns (d: nat)
    requires from < |hs| && Dead(hs, current, from)
    ensures 1 <= d <= |hs| && Dead(hs, current, d - 1) && (hs[Spot(current, d, |hs|)].alive || d == |hs|)
    decreases |hs| - from
  {
    d := from + 1;
    if !hs[Spot(current, d, |hs|)].alive && d < |hs| {
      d := NextAlive(hs, current, d);
    }
  }

  /** What one failure and the scan after it leave, with nothing in between. */
  ghost predicate FailedOver(max: int, s: Sys, t: Sys, j: nat)
    requires InRange(s) && Enabled(s, Count(j))
  {
    var r, k := s.requests[j], s.requests[j].stage.backend;
    && t.hs == s.hs[k := Fail(s.hs[k], max)] && t.scanner == None && t.raised == s.raised
    && |t.requests| == |s.requests|
    && (forall i :: 0 <= i < |s.requests| && i != j ==> t.requests[i] == s.requests[i])
    && t.requests[j] == r.(outcomes := r.outcomes + [NoAnswer], stage := t.requests[j].stage)
    && match t.requests[j].stage
       case Calling(next) => next < |t.hs| && t.hs[next].alive
       case Over(end) => end == NobodyLeft && forall i :: 0 <= i < |t.hs| ==> !t.hs[i].alive
       case _ => false
  }

  lemma {:induction false} FailAndMark(max: int, hs: seq<Health>, es: seq<Event>, j: nat) returns (es': seq<Event>)
    requires Enabled(Run(max, hs, es), Count(j))
    ensures Goes(es, es', j)
    ensures var s := Run(max, hs, es); var k := s.requests[j].stage.backend;
      Run(max, hs, es') == WithOutcome(WithHealth(s, k, Fail(s.hs[k], max)), j, NoAnswer, Retrying)
  {
    FailInOneGo(max, Run(max, hs, es), j);
    OneMore(max, hs, es, Count(j));
    OneMore(max, hs, es + [Count(j)], Mark(j));
    es' := es + [Count(j)] + [Mark(j)];
  }

  /** The place that the scan will find, d places on. */
  lemma {:induction false} NextPlace(hs: seq<Health>, current: nat) returns (d: nat, k: nat)
    requires current < |hs|
    ensures 1 <= d <= |hs| && Dead(hs, current, d - 1) && k == Spot(current, d, |hs|)
    ensures hs[k].alive || d == |hs|
    ensures !hs[k].alive ==> forall i :: 0 <= i < |hs| ==> !hs[i].alive
  {
    d := NextAlive(hs, current, 0);
    k := Spot(current, d, |hs|);
    if !hs[k].alive {
      AllDown(hs, current);
    }
  }

  lemma {:induction false} FindNext(max: int, hs: seq<Health>, es: seq<Event>, j: nat) returns (es': seq<Event>, k: nat)
    requires Enabled(Run(max, hs, es), Lock(j)) && hs != []
    ensures Goes(es, es', j)
    ensures var s := Run(max, hs, es);
      && k < |s.hs| && (!s.hs[k].alive ==> forall i :: 0 <= i < |s.hs| ==> !s.hs[i].alive)
      && Run(max, hs, es') == ScanAt(s, j, k, None, if s.hs[k].alive then Calling(k) else Over(NobodyLeft))
  {
    var s := Run(max, hs, es);
    var d;
    d, k := NextPlace(s.hs, s.current);
    es' := ScanInOneGo(max, hs, es, j, d);
  }

  lemma {:induction false} FailOver(max: int, hs: seq<Health>, es: seq<Event>, j: nat) returns (es': seq<Event>)
    requires Enabled(Run(max, hs, es), Count(j)) && Run(max, hs, es).scanner == None
    ensures Goes(es, es', j) && FailedOver(max, Run(max, hs, es), Run(max, hs, es'), j)
  {
    es' := FailAndMark(max, hs, es, j);
    var k;
    es', k := FindNext(max, hs, es', j);
  }

  /** A request alone can use up the whole budget. */
  lemma {:induction false} UseUp(max: int, hs: seq<Health>, es: seq<Event>, j: nat) returns (es': seq<Event>)
    requires var s := Run(max, hs, es);
      Enabled(s, Count(j)) && s.scanner == None && s.hs[s.requests[j].stage.backend].alive
    ensures var s, t := Run(max, hs, es), Run(max, hs, es');
      && t.scanner == None && t.raised == s.raised && |t.requests| == |s.requests|
      && (forall i :: 0 <= i < |hs| ==> !t.hs[i].alive)
      && (forall i :: 0 <= i < |s.requests| && i != j ==> t.requests[i] == s.requests[i])
    decreases Budget(Run(max, hs, es).hs, max)
  {
    es' := FailOver(max, hs, es, j);
    var s, t := Run(max, hs, es), Run(max, hs, es');
    FailureCostsOne(s.hs, s.requests[j].stage.backend, max);
    if t.requests[j].stage.Calling? {
      es' := UseUp(max, hs, es', j);
    }
  }

  /** In every run without resets and health checks that add to the budget, every chain
      that is over stopped at its first answer or used up its budget. */
  ghost predicate AlwaysExact(max: int, hs: seq<Health>) {
    forall es, j: nat :: j < |Run(max, hs, es).requests| && Run(max, hs, es).raised == 0 ==>
      var r := Run(max, hs, es).requests[j];
      Ended(r.stage) ==> Chain(OutcomeOf(r), 0, r.entry, StatusOf(r.stage.end), |r.outcomes|)
  }

  lemma {:induction false} EntryWithinBudget(max: int, hs: seq<Health>, es: seq<Event>, j: nat)
    ensures var s := Run(max, hs, es);
      Net(max, s) <= Budget(hs, max) && (j < |s.requests| ==> s.requests[j].entry <= Budget(hs, max))
  {
    if es != [] {
      var s, e := Run(max, hs, es[..|es| - 1]), es[|es| - 1];
      EntryWithinBudget(max, hs, es[..|es| - 1], j);
      if hs != [] {
        NetFalls(max, s, e, 0);
      }
      if Enabled(s, e) && !e.Choose? && !e.CheckHealth? {
        OwnStepIsLocal(max, s, e);
      }
    }
  }

  lemma {:induction false} TwoCalling(max: int, hs: seq<Health>, k: nat) returns (es: seq<Event>)
    requires k < |hs| && hs[k].alive
    ensures var r := Request(k, [], Budget(hs, max), Calling(k));
      var s := Run(max, hs, es);
      s.hs == hs && s.scanner == None && s.raised == 0 && s.requests == [r, r]
  {
    OneMore(max, hs, [], Choose(k));
    OneMore(max, hs, [Choose(k)], Choose(k));
    OneMore(max, hs, [Choose(k)] + [Choose(k)], Open(0));
    OneMore(max, hs, [Choose(k)] + [Choose(k)] + [Open(0)], Open(1));
    es := [Choose(k)] + [Choose(k)] + [Open(0)] + [Open(1)];
    assert [] + [Choose(k)] == [Choose(k)];
  }

  /** One request uses the budget up while a call of another is under way; that call
      fails too, and was the only one. */
  lemma {:induction false} CutShort(max: int, hs: seq<Health>) returns (es: seq<Event>)
    requires Budget(hs, max) >= 2
    ensures var s := Run(max, hs, es);
      s.raised == 0 && |s.requests| == 2 && var r := s.requests[1];
      r.stage == Over(NobodyLeft) && r.outcomes == [NoAnswer] && r.entry == Budget(hs, max)
  {
    BudgetZeroIffDown(hs, max);
    var k :| 0 <= k < |hs| && hs[k].alive;
    es := TwoCalling(max, hs, k);
    es := UseUp(max, hs, es, 0);
    es := FailOver(max, hs, es, 1);
  }

  /** A request that may be disturbed uses its whole budget, whatever others do, exactly
      if there is no more than one unit of it. */
  lemma {:induction false} AlwaysExactIff(max: int, hs: seq<Health>)
    ensures AlwaysExact(max, hs) <==> Budget(hs, max) <= 1
  {
    if Budget(hs, max) >= 2 {
      var es := CutShort(max, hs);
      var r := Run(max, hs, es).requests[1];
      assert !Chain(OutcomeOf(r), 0, r.entry, StatusOf(r.stage.end), |r.outcomes|);
    } else {
      forall es, j: nat | j < |Run(max, hs, es).requests| && Run(max, hs, es).raised == 0
        ensures var r := Run(max, hs, es).requests[j];
          Ended(r.stage) ==> Chain(OutcomeOf(r), 0, r.entry, StatusOf(r.stage.end), |r.outcomes|)
      {
        EntryWithinBudget(max, hs, es, j);
        CallsWithinEntry(max, hs, es, j);
        ChainsAreShaped(max, hs, es, j);
        var r := Run(max, hs, es).requests[j];
        if Ended(r.stage) {
          ShapedIsChain(r, r.entry);
        }
      }
    }
  }
}
