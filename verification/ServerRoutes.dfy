/** The routes the server registers (server/internal/api/server.go) keep the limits. */
module ServerRoutes {
  import opened RouteTable
  import opened RouteParams

  /** In the order of registration; handlers by number. */
  function Routes(): seq<Route> {
    [ Route("GET", ["health"], 0),
      Route("GET", ["games"], 1),
      Route("POST", ["games"], 2),
      Route("GET", ["games", ":id"], 3),
      Route("GET", ["games", ":id", "validate"], 4),
      Route("GET", ["games", ":id", "hints"], 5),
      Route("POST", ["games", ":id", "attempts"], 6),
      Route("POST", ["games", ":id", "reset"], 7),
      Route("DELETE", ["games", ":id"], 8) ]
  }

  /** A pattern of the table: "health", or "games", ":id" and an action, cut anywhere. */
  ghost predicate Known(p: Pattern) {
    p == [Lit("health")] || p == [Lit("games")] || p == [Lit("games"), Par] ||
    (|p| == 3 && p[0] == Lit("games") && p[1] == Par && p[2] in
      {Lit("validate"), Lit("hints"), Lit("attempts"), Lit("reset")})
  }

  lemma {:induction false} RoutesAreKnown()
    ensures |Routes()| == 9 && forall k :: 0 <= k < 9 ==> Known(Routes()[k].Shape()) && WellFormed(Routes()[k].segments)
  {
  }

  lemma {:induction false} KnownAreCompatible(p: Pattern, q: Pattern)
    requires Known(p) && Known(q)
    ensures Compatible(p, q)
  {
    if |p| >= 2 && |q| >= 2 {
      var p1, q1 := p[1..], q[1..];
      if |p| == 3 && |q| == 3 {
        assert p1[1..][0] == p[2] && q1[1..][0] == q[2];
        assert Compatible(p1[1..][1..], q1[1..][1..]);
        assert Compatible(p1[1..], q1[1..]);
      }
      assert Compatible(p1, q1);
    }
  }

  lemma {:induction false} OneParamEach(p: Pattern, i: nat)
    requires Known(p) && 0 < i <= |p| && EndsInParam(p[..i])
    ensures i == 2
  {
    assert p[..i][i - 1] == p[i - 1];
  }

  lemma {:induction false} ServerKeepsTheLimits()
    ensures GoodTable(Routes()) && DistinctNames(Routes())
  {
    RoutesAreKnown();
    var routes := Routes();
    forall j, k | 0 <= j < k < |routes| ensures Compatible(routes[j].Shape(), routes[k].Shape()) {
      KnownAreCompatible(routes[j].Shape(), routes[k].Shape());
    }
    forall k, i, j | 0 <= k < |routes| && 0 < i < j <= |routes[k].Shape()|
      ensures !(EndsInParam(routes[k].Shape()[..i]) && EndsInParam(routes[k].Shape()[..j]))
    {
      if EndsInParam(routes[k].Shape()[..i]) && EndsInParam(routes[k].Shape()[..j]) {
        OneParamEach(routes[k].Shape(), i);
        OneParamEach(routes[k].Shape(), j);
      }
    }
  }
}
