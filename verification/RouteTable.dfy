/** The flat reading of a router: a list of routes, which of them match a request,
    and which match wins (server/internal/router/router.go). */
module RouteTable {
  /** A handler function, by identity. */
  type Handler = int

  /** A pattern segment: static text, a parameter (whatever its name) or the wildcard. */
  datatype Seg = Lit(text: string) | Par | Any

  type Pattern = seq<Seg>

  predicate IsParam(s: string) { s != "" && s[0] == ':' }

  /** A segment without the colon of a parameter. */
  function NameOf(s: string): string { if IsParam(s) then s[1..] else s }

  function SegOf(s: string): Seg {
    if IsParam(s) then Par else if s == "*" then Any else Lit(s)
  }

  function PatternOf(segments: seq<string>): (p: Pattern)
    ensures |p| == |segments|
  {
    seq(|segments|, k requires 0 <= k < |segments| => SegOf(segments[k]))
  }

  /** Handle drops what follows a wildcard segment. */
  function Truncate(segments: seq<string>): (r: seq<string>)
    ensures r <= segments
  {
    if segments == [] then [] else if segments[0] == "*" then segments[..1]
    else [segments[0]] + Truncate(segments[1..])
  }

  datatype Route = Route(method_: string, segments: seq<string>, handler: Handler) {
    function Shape(): Pattern { PatternOf(segments) }
  }

  // ------------------------------------------------------- matching and priority

  /** A wildcard takes one or more remaining segments, a parameter exactly one. */
  predicate Matches(p: Pattern, req: seq<string>) {
    if p == [] then req == []
    else if req == [] then false
    else match p[0]
      case Any => true
      case Par => Matches(p[1..], req[1..])
      case Lit(t) => t == req[0] && Matches(p[1..], req[1..])
  }

  function Rank(s: Seg): nat {
    match s case Lit(_) => 0 case Par => 1 case Any => 2
  }

  /** Segment by segment: static before parameter before wildcard. */
  predicate Beats(p: Pattern, q: Pattern) {
    p == [] || q == [] || (if p[0] == q[0] then Beats(p[1..], q[1..]) else Rank(p[0]) < Rank(q[0]))
  }

  predicate Serves(r: Route, req: seq<string>, m: string) {
    r.method_ == m && Matches(r.Shape(), req)
  }

  /** Route k wins: no serving route beats it, and of its own pattern it is the latest. */
  ghost predicate IsBest(routes: seq<Route>, k: nat, req: seq<string>, m: string) {
    && k < |routes| && Serves(routes[k], req, m)
    && forall j :: 0 <= j < |routes| && Serves(routes[j], req, m) ==>
         Beats(routes[k].Shape(), routes[j].Shape()) && (routes[j].Shape() == routes[k].Shape() ==> j <= k)
  }

  // ------------------------------------------------------------ the three limits

  /** Two different segments at one place that the trie keeps apart: static texts
      with different first bytes, and static text before '*' beside a wildcard. */
  predicate Apart(s: Seg, t: Seg) {
    match (s, t)
    case (Lit(a), Lit(b)) => a != "" && b != "" && a[0] != b[0]
    case (Lit(a), Any) => a != "" && a[0] < '*'
    case (Any, Lit(b)) => b != "" && b[0] < '*'
    case _ => true
  }

  /** Where the patterns first differ, the segments are apart. */
  predicate Compatible(p: Pattern, q: Pattern) {
    p == [] || q == [] || (if p[0] == q[0] then Compatible(p[1..], q[1..]) else Apart(p[0], q[0]))
  }

  /** What Handle gives the trie: no empty segment, nothing after a wildcard, and
      no parameter named "*". */
  predicate WellFormed(segments: seq<string>) {
    && (forall k :: 0 <= k < |segments| ==> segments[k] != "" && segments[k] != ":*")
    && (forall k :: 0 <= k < |segments| - 1 ==> segments[k] != "*")
  }

  predicate GoodTable(routes: seq<Route>) {
    && (forall k :: 0 <= k < |routes| ==> WellFormed(routes[k].segments))
    && (forall j, k :: 0 <= j < k < |routes| ==> Compatible(routes[j].Shape(), routes[k].Shape()))
  }

  lemma {:induction false} TruncateIsWellFormed(segments: seq<string>)
    requires forall k :: 0 <= k < |segments| ==> segments[k] != "" && segments[k] != ":*"
    ensures WellFormed(Truncate(segments))
  {
    if segments != [] && segments[0] != "*" {
      TruncateIsWellFormed(segments[1..]);
    }
  }

  // ------------------------------------------- the table has at most one winner

  lemma {:induction false} BeatsIsStrict(p: Pattern, q: Pattern, req: seq<string>)
    requires Matches(p, req) && Matches(q, req) && Beats(p, q) && Beats(q, p)
    requires forall k :: 0 <= k < |p| - 1 ==> p[k] != Any
    requires forall k :: 0 <= k < |q| - 1 ==> q[k] != Any
    ensures p == q
  {
    if p != [] && p[0] != Any {
      BeatsIsStrict(p[1..], q[1..], req[1..]);
      assert p == [p[0]] + p[1..] && q == [q[0]] + q[1..];
    }
  }

  lemma {:induction false} BestIsUnique(routes: seq<Route>, j: nat, k: nat, req: seq<string>, m: string)
    requires forall i :: 0 <= i < |routes| ==> WellFormed(routes[i].segments)
    requires IsBest(routes, j, req, m) && IsBest(routes, k, req, m)
    ensures j == k
  {
    BeatsIsStrict(routes[j].Shape(), routes[k].Shape(), req);
  }
}
