/** The limits of `GoodTable` are exact: a registration that breaks them makes the
    trie answer some request differently from the flat table, because insert splits
    a whole segment at a common prefix or the search stops at a wildcard
    (server/internal/router/node.go:69-117, router.go:118-120). */
module RouteLimits {
  import opened RouteTable
  import opened Wrappers
  import opened Trie

  // ------------------------------------------------ what a search can reach

  /** The search may go on in child i for a first segment s: a parameter always, a
      static child only if no parameter or wildcard stands before it. */
  predicate Leads(cs: seq<Tree>, i: nat, s: string)
    requires i < |cs|
  {
    cs[i].isParam ||
    (!cs[i].isWildcard && cs[i].part == s && forall j :: 0 <= j < i ==> !cs[j].isParam && !cs[j].isWildcard)
  }

  predicate Holds(c: Tree, m: string, h: Handler) { m in c.handlers && c.handlers[m] == h }

  predicate Reaches(t: Tree, req: seq<string>, m: string, h: Handler)
    decreases |req|
  {
    if req == [] then Holds(t, m, h)
    else
      || (exists i :: 0 <= i < |t.children| && Leads(t.children, i, req[0]) && Reaches(t.children[i], req[1..], m, h))
      || (exists i :: 0 <= i < |t.children| && t.children[i].isWildcard && Holds(t.children[i], m, h))
  }

  lemma {:induction false} StaticFinds(cs: seq<Tree>, req: seq<string>, m: string, params: Params)
      returns (i: nat, ps: Params)
    requires req != [] && StaticPass(cs, req, m, params).handler.Some?
    ensures i < |cs| && Leads(cs, i, req[0])
    ensures Find(cs[i], req[1..], m, ps).handler == StaticPass(cs, req, m, params).handler
    decreases |cs|
  {
    ps := params;
    i := 0;
    if cs[0].part != req[0] || Find(cs[0], req[1..], m, params).handler.None? {
      if cs[0].part == req[0] {
        ps := Find(cs[0], req[1..], m, params).params;
      }
      i, ps := StaticFinds(cs[1..], req, m, ps);
      i := i + 1;
    }
  }

  lemma {:induction false} ParamFinds(cs: seq<Tree>, req: seq<string>, m: string, params: Params)
      returns (i: nat, ps: Params)
    requires req != [] && ParamPass(cs, req, m, params).handler.Some?
    ensures i < |cs| && cs[i].isParam
    ensures Find(cs[i], req[1..], m, ps).handler == ParamPass(cs, req, m, params).handler
    decreases |cs|
  {
    ps := params[cs[0].part := req[0]];
    i := 0;
    if !cs[0].isParam {
      i, ps := ParamFinds(cs[1..], req, m, params);
      i := i + 1;
    } else if Find(cs[0], req[1..], m, ps).handler.None? {
      i, ps := ParamFinds(cs[1..], req, m, Find(cs[0], req[1..], m, ps).params - {cs[0].part});
      i := i + 1;
    }
  }

  lemma {:induction false} WildcardFinds(cs: seq<Tree>, req: seq<string>, m: string, params: Params) returns (i: nat)
    requires WildcardPass(cs, req, m, params).handler.Some?
    ensures i < |cs| && cs[i].isWildcard && Holds(cs[i], m, WildcardPass(cs, req, m, params).handler.value)
    decreases |cs|
  {
    i := 0;
    if !(cs[0].isWildcard && m in cs[0].handlers) {
      i := WildcardFinds(cs[1..], req, m, params);
      i := i + 1;
    }
  }

  /** What the search finds it has reached: true of every tree. */
  lemma {:induction false} FindReaches(t: Tree, req: seq<string>, m: string, params: Params)
    requires Find(t, req, m, params).handler.Some?
    ensures Reaches(t, req, m, Find(t, req, m, params).handler.value)
    decreases |req|
  {
    if req != [] {
      var s := StaticPass(t.children, req, m, params);
      if s.handler.Some? {
        var i, ps := StaticFinds(t.children, req, m, params);
        FindReaches(t.children[i], req[1..], m, ps);
      } else {
        var p := ParamPass(t.children, req, m, s.params);
        if p.handler.Some? {
          var i, ps := ParamFinds(t.children, req, m, s.params);
          FindReaches(t.children[i], req[1..], m, ps);
        } else {
          var _ := WildcardFinds(t.children, req, m, p.params);
        }
      }
    }
  }

  /** In an intact tree, what is reached stands at a matching place. */
  lemma {:induction false} ReachedPlace(t: Tree, req: seq<string>, m: string, h: Handler) returns (u: Pattern)
    requires WF(t) && Reaches(t, req, m, h)
    ensures Matches(u, req) && HandlerAt(t, u, m) == Some(h)
    decreases |req|
  {
    u := [];
    if req != [] {
      ChildrenWF(t);
      var cs := t.children;
      if i :| 0 <= i < |cs| && Leads(cs, i, req[0]) && Reaches(cs[i], req[1..], m, h) {
        var v := ReachedPlace(cs[i], req[1..], m, h);
        u := PlaceInChild(t, i, v, req);
      } else {
        var i :| 0 <= i < |cs| && cs[i].isWildcard && Holds(cs[i], m, h);
        u := [Any];
        ChildIsUnique(cs, i);
        NodeBelow(t, Any, []);
        assert u == [Any] + [];
      }
    }
  }

  lemma {:induction false} PlaceInChild(t: Tree, i: nat, v: Pattern, req: seq<string>) returns (u: Pattern)
    requires WF(t) && req != [] && i < |t.children| && Matches(v, req[1..])
    requires t.children[i].isParam || (!t.children[i].isWildcard && t.children[i].part == req[0])
    ensures u == [Kind(t.children[i])] + v && Matches(u, req) && NodeAt(t, u) == NodeAt(t.children[i], v)
  {
    u := [Kind(t.children[i])] + v;
    ChildIsUnique(t.children, i);
    NodeBelow(t, Kind(t.children[i]), v);
    assert u[1..] == v;
  }

  // ----------------------------------------------------- a damaged insertion

  /** At the node where a registration breaks the limits: for first segment x the new
      node leads only into children it had before, none of them the static x; a new
      wildcard child holds the new handler alone. */
  ghost predicate Damaged(t: Tree, t': Tree, x: string, m: string, h: Handler, wild: bool) {
    && t'.handlers == t.handlers
    && (forall i :: 0 <= i < |t'.children| && Leads(t'.children, i, x) ==>
          t'.children[i] in t.children && Kind(t'.children[i]) != Lit(x))
    && (forall i :: 0 <= i < |t'.children| && t'.children[i].isWildcard ==>
          t'.children[i] in t.children || (wild && t'.children[i].handlers == map[m := h]))
  }

  lemma {:induction false} DamagedHere(t: Tree, t': Tree, x: string, m0: string, h0: Handler, wild: bool,
                    req: seq<string>, m: string, h: Handler) returns (u: Pattern)
    requires WF(t) && Damaged(t, t', x, m0, h0, wild) && Reaches(t', req, m, h)
    requires req != [] ==> req[0] == x
    ensures (wild && h == h0) || (Matches(u, req) && HandlerAt(t, u, m) == Some(h) && !([Lit(x)] <= u))
  {
    u := [];
    if req != [] {
      var cs' := t'.children;
      if i :| 0 <= i < |cs'| && Leads(cs', i, req[0]) && Reaches(cs'[i], req[1..], m, h) {
        u := PlaceInOldChild(t, cs'[i], req, m, h);
      } else {
        var i :| 0 <= i < |cs'| && cs'[i].isWildcard && Holds(cs'[i], m, h);
        if cs'[i] in t.children {
          u := PlaceAtWildcard(t, cs'[i], req, m, h);
        }
      }
    }
  }

  lemma {:induction false} PlaceInOldChild(t: Tree, c: Tree, req: seq<string>, m: string,
                                           h: Handler) returns (u: Pattern)
    requires WF(t) && req != [] && c in t.children && Reaches(c, req[1..], m, h)
    requires c.isParam || (!c.isWildcard && c.part == req[0])
    ensures Matches(u, req) && HandlerAt(t, u, m) == Some(h) && u != [] && u[0] == Kind(c)
  {
    var k :| 0 <= k < |t.children| && t.children[k] == c;
    ChildrenWF(t);
    var v := ReachedPlace(c, req[1..], m, h);
    u := PlaceInChild(t, k, v, req);
  }

  lemma {:induction false} PlaceAtWildcard(t: Tree, c: Tree, req: seq<string>, m: string,
                                           h: Handler) returns (u: Pattern)
    requires WF(t) && req != [] && c in t.children && c.isWildcard && Holds(c, m, h)
    ensures u == [Any] && Matches(u, req) && HandlerAt(t, u, m) == Some(h)
  {
    var k :| 0 <= k < |t.children| && t.children[k] == c;
    ChildrenWF(t);
    ChildIsUnique(t.children, k);
    u := [Any];
    NodeBelow(t, Any, []);
    assert u == [Any] + [];
  }

  /** Insert goes down unharmed while the tree already has the path. */
  lemma {:induction false} TargetIsExisting(t: Tree, seg: string)
    requires WF(t) && seg != "" && ChildAt(t.children, SegOf(seg)) < |t.children|
    ensures Target(t.children, IsParam(seg), NameOf(seg)) == ChildAt(t.children, SegOf(seg))
  {
    ChildrenWF(t);
    var cs, k := t.children, ChildAt(t.children, SegOf(seg));
    forall j | 0 <= j < |cs| ensures Takes(cs[j], IsParam(seg), NameOf(seg)) ==> j == k {
      assert j < k ==> KindBefore(Kind(cs[j]), Kind(cs[k]));
      assert k < j ==> KindBefore(Kind(cs[k]), Kind(cs[j]));
    }
    assert Takes(cs[k], IsParam(seg), NameOf(seg));
  }

  lemma {:induction false} InsertThrough(t: Tree, segments: seq<string>, m: string, h: Handler)
    requires WF(t) && segments != [] && segments[0] != ""
    requires ChildAt(t.children, SegOf(segments[0])) < |t.children|
    ensures var k := ChildAt(t.children, SegOf(segments[0]));
      Insert(t, segments, m, h) == t.(children := t.children[k := Insert(t.children[k], segments[1..], m, h)])
  {
    ChildrenWF(t);
    TargetIsExisting(t, segments[0]);
  }

  /** The node below the first n segments exists and is damaged for x. */
  ghost predicate DamagedAt(t: Tree, segments: seq<string>, n: nat, x: string, m: string, h: Handler, wild: bool) {
    && n < |segments| && NodeAt(t, PatternOf(segments)[..n]).Some?
    && var d := NodeAt(t, PatternOf(segments)[..n]).value;
       Damaged(d, Insert(d, segments[n..], m, h), x, m, h, wild)
  }

  /** Found in the old tree at a matching place that does not go through the lost path. */
  ghost predicate FoundOff(t: Tree, u: Pattern, lost: Pattern, req: seq<string>, m: string, h: Handler) {
    Matches(u, req) && HandlerAt(t, u, m) == Some(h) && !(lost <= u)
  }

  /** Below a shared prefix of n segments the tree is damaged for x.  A search for a
      request with x at place n then reaches only the new wildcard, or handlers that
      stood in the old tree at matching places that do not go through the static x. */
  lemma {:induction false} DamagedReach(t: Tree, segments: seq<string>, m0: string, h0: Handler, wild: bool,
                     n: nat, req: seq<string>, m: string, h: Handler) returns (u: Pattern)
    requires WF(t) && n < |req| && DamagedAt(t, segments, n, req[n], m0, h0, wild)
    requires forall i :: 0 <= i < n ==> segments[i] != "" && segments[i] != "*"
    requires Reaches(Insert(t, segments, m0, h0), req, m, h)
    ensures (wild && h == h0) || FoundOff(t, u, PatternOf(segments)[..n] + [Lit(req[n])], req, m, h)
    decreases n, 1
  {
    if n == 0 {
      var p := PatternOf(segments);
      assert segments[0..] == segments && p[..0] == [] && p[..0] + [Lit(req[0])] == [Lit(req[0])];
      u := DamagedHere(t, Insert(t, segments, m0, h0), req[0], m0, h0, wild, req, m, h);
    } else {
      u := DamagedBelow(t, segments, m0, h0, wild, n, req, m, h);
    }
  }

  lemma {:induction false} DamagedBelow(t: Tree, segments: seq<string>, m0: string, h0: Handler, wild: bool,
                     n: nat, req: seq<string>, m: string, h: Handler) returns (u: Pattern)
    requires WF(t) && 0 < n < |req| && DamagedAt(t, segments, n, req[n], m0, h0, wild)
    requires forall i :: 0 <= i < n ==> segments[i] != "" && segments[i] != "*"
    requires Reaches(Insert(t, segments, m0, h0), req, m, h)
    ensures (wild && h == h0) || FoundOff(t, u, PatternOf(segments)[..n] + [Lit(req[n])], req, m, h)
    decreases n, 0
  {
    u := [];
    var cs, k := t.children, ChildAt(t.children, SegOf(segments[0]));
    var rest := PatternOf(segments[1..])[..n - 1] + [Lit(req[1..][n - 1])];
    OneStepDown(t, segments, n, req[n], m0, h0, wild);
    StepDownNames(segments, n, req);
    var c, i := WhichChild(t, segments, m0, h0, req, m, h);
    if i != k {
      u := OtherChild(t, k, c, i, rest, req, m, h);
    } else {
      var v := DamagedReach(cs[k], segments[1..], m0, h0, wild, n - 1, req[1..], m, h);
      if !(wild && h == h0) {
        u := AnotherPlace(t, k, k, v, rest, req, m, h);
      }
    }
  }

  lemma {:induction false} OtherChild(t: Tree, k: nat, c: Tree, i: nat, rest: Pattern, req: seq<string>,
                                      m: string, h: Handler)
      returns (u: Pattern)
    requires WF(t) && req != [] && k < |t.children| && !t.children[k].isWildcard
    requires WentInto(t.children, k, c, i, req, m, h) && i != k
    ensures FoundOff(t, u, [Kind(t.children[k])] + rest, req, m, h)
  {
    var v: Pattern := [];
    if i < |t.children| {
      v := ReachedPlace(t.children[i], req[1..], m, h);
    }
    u := AnotherPlace(t, k, i, v, rest, req, m, h);
  }

  lemma {:induction false} StepDownNames(segments: seq<string>, n: nat, req: seq<string>)
    requires 0 < n < |segments| && n < |req| && forall i :: 0 <= i < n ==> segments[i] != "" && segments[i] != "*"
    ensures req[1..][n - 1] == req[n]
    ensures forall i :: 0 <= i < n - 1 ==> segments[1..][i] != "" && segments[1..][i] != "*"
    ensures PatternOf(segments)[..n] + [Lit(req[n])] ==
            [SegOf(segments[0])] + (PatternOf(segments[1..])[..n - 1] + [Lit(req[1..][n - 1])])
  {
    assert PatternOf(segments)[..n] == [SegOf(segments[0])] + PatternOf(segments[1..])[..n - 1];
  }

  lemma {:induction false} OneStepDown(t: Tree, segments: seq<string>, n: nat, x: string, m: string,
                                       h: Handler, wild: bool)
    requires 0 < n && DamagedAt(t, segments, n, x, m, h, wild)
    ensures var k := ChildAt(t.children, SegOf(segments[0]));
      k < |t.children| && DamagedAt(t.children[k], segments[1..], n - 1, x, m, h, wild)
    ensures PatternOf(segments)[..n] == [SegOf(segments[0])] + PatternOf(segments[1..])[..n - 1]
  {
    assert PatternOf(segments)[..n][1..] == PatternOf(segments[1..])[..n - 1];
    assert segments[1..][n - 1..] == segments[n..];
  }

  /** A place found in child i, or the wildcard, is a place of t off the lost path. */
  lemma {:induction false} AnotherPlace(t: Tree, k: nat, i: nat, v: Pattern, rest: Pattern,
      req: seq<string>, m: string, h: Handler) returns (u: Pattern)
    requires WF(t) && req != [] && k < |t.children| && i <= |t.children| && !t.children[k].isWildcard
    requires i < |t.children| ==>
      && (t.children[i].isParam || (!t.children[i].isWildcard && t.children[i].part == req[0]))
      && Matches(v, req[1..]) && HandlerAt(t.children[i], v, m) == Some(h) && (i == k ==> !(rest <= v))
    requires i == |t.children| ==>
      exists w :: 0 <= w < |t.children| && t.children[w].isWildcard && Holds(t.children[w], m, h)
    ensures Matches(u, req) && HandlerAt(t, u, m) == Some(h) && !([Kind(t.children[k])] + rest <= u)
  {
    ChildrenWF(t);
    if i < |t.children| {
      u := PlaceInChild(t, i, v, req);
      ChildIsUnique(t.children, i);
      ChildIsUnique(t.children, k);
      assert u[1..] == v && ([Kind(t.children[k])] + rest)[1..] == rest;
    } else {
      u := [Any];
      var w :| 0 <= w < |t.children| && t.children[w].isWildcard && Holds(t.children[w], m, h);
      ChildIsUnique(t.children, w);
      NodeBelow(t, Any, []);
      assert u == [Any] + [];
    }
  }

  /** The child in which a search goes on after an insertion below an existing child. */
  lemma {:induction false} WhichChild(t: Tree, segments: seq<string>, m0: string, h0: Handler,
                     req: seq<string>, m: string, h: Handler) returns (c: Tree, i: nat)
    requires WF(t) && segments != [] && segments[0] != "" && segments[0] != "*" && req != []
    requires ChildAt(t.children, SegOf(segments[0])) < |t.children|
    requires Reaches(Insert(t, segments, m0, h0), req, m, h)
    ensures var cs, k := t.children, ChildAt(t.children, SegOf(segments[0]));
      && WF(cs[k]) && !cs[k].isWildcard
      && c == Insert(cs[k], segments[1..], m0, h0) && WentInto(cs, k, c, i, req, m, h)
  {
    ChildrenWF(t);
    var k := ChildAt(t.children, SegOf(segments[0]));
    InsertThrough(t, segments, m0, h0);
    InsertKeepsFace(t.children[k], segments[1..], m0, h0);
    c := Insert(t.children[k], segments[1..], m0, h0);
    i := ReachedChild(t, k, c, req, m, h);
  }

  /** The search went on in child i, or in c if that is the new child k; |cs| stands
      for the wildcard. */
  ghost predicate WentInto(cs: seq<Tree>, k: nat, c: Tree, i: nat, req: seq<string>, m: string, h: Handler)
    requires req != []
  {
    && i <= |cs|
    && (i < |cs| ==>
          && WF(cs[i]) && Reaches(if i == k then c else cs[i], req[1..], m, h)
          && (cs[i].isParam || (!cs[i].isWildcard && cs[i].part == req[0])))
    && (i == |cs| ==> exists w :: 0 <= w < |cs| && cs[w].isWildcard && Holds(cs[w], m, h))
  }

  /** Which child a search goes on in after child k was exchanged for one of its kind;
      |t.children| stands for the wildcard. */
  lemma {:induction false} ReachedChild(t: Tree, k: nat, c: Tree, req: seq<string>, m: string,
                                        h: Handler) returns (i: nat)
    requires WF(t) && k < |t.children| && !c.isWildcard && req != []
    requires c.part == t.children[k].part && c.isParam == t.children[k].isParam && !t.children[k].isWildcard
    requires Reaches(t.(children := t.children[k := c]), req, m, h)
    ensures WentInto(t.children, k, c, i, req, m, h)
  {
    ChildrenWF(t);
    var cs' := t.children[k := c];
    if j :| 0 <= j < |cs'| && Leads(cs', j, req[0]) && Reaches(cs'[j], req[1..], m, h) {
      i := j;
    } else {
      i := |t.children|;
      var w :| 0 <= w < |cs'| && cs'[w].isWildcard && Holds(cs'[w], m, h);
      assert t.children[w].isWildcard && Holds(t.children[w], m, h);
    }
  }

  // --------------------------------------------- where the damage comes from

  /** At a node of an intact tree, with p0 the new segment and s0 the kind of a child
      that is not apart from it: the segment that is lost, and whose it is. */
  lemma {:induction false} DamageAtNode(t: Tree, segments: seq<string>, m: string, h: Handler, k: nat)
      returns (x: string, old_: bool, j: nat)
    requires WF(t) && segments != [] && segments[0] != "" && k < |t.children|
    requires !Apart(Kind(t.children[k]), SegOf(segments[0])) && Kind(t.children[k]) != SegOf(segments[0])
    requires ChildAt(t.children, SegOf(segments[0])) == |t.children|
    requires SegOf(segments[0]) == Any ==> segments[1..] == []
    ensures Damaged(t, Insert(t, segments, m, h), x, m, h, SegOf(segments[0]) == Any)
    ensures if old_ then j < |t.children| && Kind(t.children[j]) == Lit(x) && SegOf(segments[0]) != Lit(x)
            else SegOf(segments[0]) == Lit(x)
  {
    ChildrenWF(t);
    var cs, name := t.children, segments[0];
    j := Target(cs, false, name);
    if j < |cs| {
      old_ := CommonPrefix(name, cs[j].part) < |cs[j].part|;
      x := if old_ then cs[j].part else name;
      SplitDamages(t, segments, m, h, j, x);
    } else if SegOf(name) == Any {
      old_, j, x := true, k, cs[k].part;
      WildcardComesFirst(t, segments, m, h, k);
    } else {
      old_, x := false, name;
      LandsBehindWildcard(t, segments, m, h, k);
    }
  }

  /** A split hides the old text; or, if that is the common prefix, the new one. */
  lemma {:induction false} SplitDamages(t: Tree, segments: seq<string>, m: string, h: Handler, j: nat, x: string)
    requires WF(t) && segments != [] && segments[0] != "" && !IsParam(segments[0])
    requires ChildAt(t.children, SegOf(segments[0])) == |t.children|
    requires j == Target(t.children, false, segments[0]) < |t.children|
    requires x == if CommonPrefix(segments[0], t.children[j].part) < |t.children[j].part|
                  then t.children[j].part else segments[0]
    ensures Damaged(t, Insert(t, segments, m, h), x, m, h, false)
    ensures x != segments[0] ==> Kind(t.children[j]) == Lit(x)
    ensures x == segments[0] ==> SegOf(x) == Lit(x)
  {
    ChildrenWF(t);
    var cs, name := t.children, segments[0];
    var i := CommonPrefix(name, cs[j].part);
    CommonPrefixAgrees(name, cs[j].part);
    assert name == name[..i] + name[i..] && cs[j].part == cs[j].part[..i] + cs[j].part[i..];
    assert cs[j].part != name;
    var above := SplitChild(cs[j], name, segments[1..], m, h);
    SplitFace(cs[j], name, segments[1..], m, h);
    assert Insert(t, segments, m, h) == t.(children := cs[j := above]);
    assert above.part == cs[j].part[..i] != x;
    forall k | 0 <= k < |cs| && k != j ensures cs[k] in cs && Kind(cs[k]) != Lit(x) {
      if Kind(cs[k]) == Kind(cs[j]) {
        ChildIsUnique(cs, k);
        ChildIsUnique(cs, j);
      }
    }
  }

  lemma {:induction false} CommonPrefixAgrees(a: string, b: string)
    ensures a[..CommonPrefix(a, b)] == b[..CommonPrefix(a, b)]
  {
    var n := CommonPrefix(a, b);
    if n > 0 {
      CommonPrefixAgrees(a[1..], b[1..]);
      assert a[..n] == [a[0]] + a[1..][..n - 1] && b[..n] == [b[0]] + b[1..][..n - 1];
    }
  }

  lemma {:induction false} SplitFace(c: Tree, name: string, rest: seq<string>, m: string, h: Handler)
    ensures var above := SplitChild(c, name, rest, m, h);
      above.part == c.part[..CommonPrefix(name, c.part)] && !above.isParam && !above.isWildcard
  {
    var i := CommonPrefix(name, c.part);
    InsertKeepsFace(Tree(c.part[..i], false, false, [c.(part := c.part[i..])], map[]), rest, m, h);
  }

  lemma {:induction false} NewChildAdded(t: Tree, segments: seq<string>, m: string, h: Handler)
    requires segments != [] && !IsParam(segments[0])
    requires Target(t.children, false, segments[0]) == |t.children|
    ensures var at := Place(t.children, false, segments[0]);
      var c := Insert(NewNode(segments[0], false), segments[1..], m, h);
      Insert(t, segments, m, h) == t.(children := t.children[..at] + [c] + t.children[at..])
  {
  }

  lemma {:induction false} InsertKeepsFace(t: Tree, segments: seq<string>, m: string, h: Handler)
    ensures var t' := Insert(t, segments, m, h);
      t'.part == t.part && t'.isParam == t.isParam && t'.isWildcard == t.isWildcard
    ensures segments != [] ==> Insert(t, segments, m, h).handlers == t.handlers
  {
  }

  /** A new child in a place at or behind a wildcard, with no static x before that. */
  lemma {:induction false} NewChildDamages(t: Tree, at: nat, c: Tree, w: nat, x: string, m: string, h: Handler,
                                           wild: bool)
    requires WF(t) && w <= at <= |t.children| && !c.isParam
    requires if w < at then Kind(t.children[w]) == Any else Kind(c) == Any
    requires c.isWildcard ==> wild && c.handlers == map[m := h]
    requires forall i :: 0 <= i < w ==> Kind(t.children[i]) != Lit(x)
    ensures Damaged(t, t.(children := t.children[..at] + [c] + t.children[at..]), x, m, h, wild)
  {
    var cs := t.children;
    var cs' := cs[..at] + [c] + cs[at..];
    assert cs'[w].isWildcard && !cs'[w].isParam;
    forall i | 0 <= i < |cs'|
      ensures Leads(cs', i, x) ==> cs'[i] in cs && Kind(cs'[i]) != Lit(x)
      ensures cs'[i].isWildcard ==> cs'[i] in cs || (wild && cs'[i].handlers == map[m := h])
    {
      assert cs'[i] == if i < at then cs[i] else if i == at then c else cs[i - 1];
    }
  }

  /** A static segment greater than "*" goes in after the wildcard, where no search looks. */
  lemma {:induction false} LandsBehindWildcard(t: Tree, segments: seq<string>, m: string, h: Handler, k: nat)
    requires WF(t) && segments != [] && segments[0] != "" && SegOf(segments[0]).Lit? && k < |t.children|
    requires Kind(t.children[k]) == Any && segments[0][0] >= '*'
    requires Target(t.children, false, segments[0]) == |t.children|
    ensures Damaged(t, Insert(t, segments, m, h), segments[0], m, h, false)
  {
    ChildrenWF(t);
    var cs, b := t.children, segments[0];
    forall j | 0 <= j <= k ensures !GoesBefore(false, b, cs[j]) && Kind(cs[j]) != Lit(b) {
      assert !Takes(cs[j], false, b);
      assert j < k ==> KindBefore(Kind(cs[j]), Any);
    }
    NewChildAdded(t, segments, m, h);
    var c := Insert(NewNode(b, false), segments[1..], m, h);
    InsertKeepsFace(NewNode(b, false), segments[1..], m, h);
    NewChildDamages(t, Place(cs, false, b), c, k, b, m, h, false);
  }

  /** A wildcard goes in before the static children greater than "*", which no search
      then reaches. */
  lemma {:induction false} WildcardComesFirst(t: Tree, segments: seq<string>, m: string, h: Handler, k: nat)
    requires WF(t) && segments == ["*"] && k < |t.children|
    requires Kind(t.children[k]).Lit? && t.children[k].part != "" && t.children[k].part[0] >= '*'
    requires Target(t.children, false, "*") == |t.children|
    ensures Damaged(t, Insert(t, segments, m, h), t.children[k].part, m, h, true)
  {
    ChildrenWF(t);
    var cs := t.children;
    var at := Place(cs, false, "*");
    assert !Takes(cs[k], false, "*");
    assert GoesBefore(false, "*", cs[k]) && at <= k;
    forall i | 0 <= i < at ensures Kind(cs[i]) != Kind(cs[k]) {
      ChildIsUnique(cs, k);
      ChildIsUnique(cs, i);
    }
    NewChildAdded(t, segments, m, h);
    NewChildDamages(t, at, Insert(NewNode("*", false), [], m, h), at, cs[k].part, m, h, true);
  }

  // ------------------------------------------------------- a telling request

  function LongestSegment(segments: seq<string>): nat {
    if segments == [] then 0
    else
      var n := LongestSegment(segments[..|segments| - 1]);
      if |segments[|segments| - 1]| > n then |segments[|segments| - 1]| else n
  }

  lemma {:induction false} LongestIsLongest(segments: seq<string>, k: nat)
    requires k < |segments|
    ensures |segments[k]| <= LongestSegment(segments)
  {
    if k < |segments| - 1 {
      LongestIsLongest(segments[..|segments| - 1], k);
    }
  }

  ghost predicate Unused(routes: seq<Route>, f: string) {
    forall k, i :: 0 <= k < |routes| && 0 <= i < |routes[k].segments| ==> routes[k].Shape()[i] != Lit(f)
  }

  lemma {:induction false} UnusedText(routes: seq<Route>, least: nat) returns (f: string)
    ensures Unused(routes, f) && |f| >= least
  {
    if routes == [] {
      f := seq(least, _ => 'x');
    } else {
      var n := |routes| - 1;
      var longest := LongestSegment(routes[n].segments);
      f := UnusedText(routes[..n], if longest >= least then longest + 1 else least);
      forall k, i | 0 <= k < |routes| && 0 <= i < |routes[k].segments| ensures routes[k].Shape()[i] != Lit(f) {
        if k < n {
          assert routes[..n][k] == routes[k];
        } else {
          LongestIsLongest(routes[n].segments, i);
        }
      }
    }
  }

  /** A request made from a pattern: parameters and wildcard become the text f. */
  function Sample(v: Pattern, f: string): seq<string> {
    if v == [] then [] else [if v[0].Lit? then v[0].text else f] + Sample(v[1..], f)
  }

  lemma {:induction false} SampleMatches(v: Pattern, f: string, n: nat)
    requires forall i :: 0 <= i < |v| - 1 ==> v[i] != Any
    ensures Matches(v, Sample(v, f)) && |Sample(v, f)| == |v|
    ensures n < |v| && v[n].Lit? ==> Sample(v, f)[n] == v[n].text
  {
    if v != [] {
      SampleMatches(v[1..], f, if n > 0 then n - 1 else 0);
    }
  }

  /** Another pattern that matches the sample either shares v up to the static text at
      n, or loses to every pattern that does. */
  lemma {:induction false} OffPathLoses(v: Pattern, n: nat, f: string, u: Pattern, w: Pattern)
    requires n < |v| && v[n].Lit? && forall i :: 0 <= i < n ==> v[i] != Any
    requires Matches(u, Sample(v, f)) && forall i :: 0 <= i < |u| ==> u[i] != Lit(f)
    requires v[..n + 1] <= w
    ensures v[..n + 1] <= u || (Beats(w, u) && !Beats(u, w))
  {
    assert w[0] == v[0] by { assert v[..n + 1][0] == v[0]; }
    if n > 0 && u[0] == v[0] {
      assert v[..n + 1][1..] == v[1..][..n];
      OffPathLoses(v[1..], n - 1, f, u[1..], w[1..]);
      assert u == [u[0]] + u[1..] && v[..n + 1] == [v[0]] + v[1..][..n];
    } else if u[0] == v[0] {
      assert v[..1] == [v[0]] && u == [u[0]] + u[1..];
    }
  }

  lemma {:induction false} FirstClash(s: Pattern, p: Pattern) returns (n: nat)
    requires !Compatible(s, p)
    ensures n < |s| && n < |p| && s[..n] == p[..n] && s[n] != p[n] && !Apart(s[n], p[n])
  {
    n := 0;
    if s[0] == p[0] {
      n := FirstClash(s[1..], p[1..]);
      assert s[..n + 1] == [s[0]] + s[1..][..n] && p[..n + 1] == [p[0]] + p[1..][..n];
      n := n + 1;
    }
  }

  lemma {:induction false} NodeAtWF(t: Tree, p: Pattern)
    requires WF(t) && NodeAt(t, p).Some?
    ensures WF(NodeAt(t, p).value)
    decreases |p|
  {
    if p != [] {
      ChildrenWF(t);
      NodeAtWF(t.children[ChildAt(t.children, p[0])], p[1..]);
    }
  }

  /** The places of the tree are the prefixes of the registered patterns. */
  lemma {:induction false} PlacesArePrefixes(routes: seq<Route>, p: Pattern) returns (k: nat)
    requires GoodTable(routes) && p != []
    ensures NodeAt(Build(routes), p).Some? ==> k < |routes| && p <= routes[k].Shape()
    ensures NodeAt(Build(routes), p).None? ==> forall j :: 0 <= j < |routes| ==> !(p <= routes[j].Shape())
  {
    BuildHolds(routes, p, "");
    k := 0;
    if FirstName(routes, p).Some? {
      FirstNameIsFromARoute(routes, p);
      k :| k < |routes| && Names(routes[k], p, FirstName(routes, p).value);
    } else {
      NoNameNoRoute(routes, p);
    }
  }

  lemma {:induction false} NoNameNoRoute(routes: seq<Route>, p: Pattern)
    requires p != [] && FirstName(routes, p).None?
    ensures forall j :: 0 <= j < |routes| ==> !(p <= routes[j].Shape())
  {
    if routes != [] {
      NoNameNoRoute(routes[..|routes| - 1], p);
      assert forall j :: 0 <= j < |routes| - 1 ==> routes[..|routes| - 1][j] == routes[j];
    }
  }

  // ------------------------------------------------------------ the theorem

  ghost predicate DistinctHandlers(routes: seq<Route>) {
    forall j, k :: 0 <= j < k < |routes| ==> routes[j].handler != routes[k].handler
  }

  /** The trie answers every request as the flat table does. */
  ghost predicate Refines(routes: seq<Route>) {
    forall req, m :: Agrees(routes, req, m)
  }

  ghost predicate Agrees(routes: seq<Route>, req: seq<string>, m: string) {
    && (forall k: nat :: IsBest(routes, k, req, m) ==> Lookup(routes, req, m).handler == Some(routes[k].handler))
    && ((forall k :: 0 <= k < |routes| ==> !Serves(routes[k], req, m)) ==> Lookup(routes, req, m).handler == None)
  }

  /** The node where r first leaves every registered pattern, and the child there that
      it is not apart from. */
  lemma {:induction false} ClashNode(routes: seq<Route>, r: Route, j: nat) returns (n: nat, k: nat)
    requires GoodTable(routes) && WellFormed(r.segments) && j < |routes|
    requires !Compatible(routes[j].Shape(), r.Shape())
    ensures n < |r.segments| && NodeAt(Build(routes), r.Shape()[..n]).Some?
    ensures var d := NodeAt(Build(routes), r.Shape()[..n]).value; WF(d) && ClashAt(d, k, r.Shape()[n])
    ensures forall i :: 0 <= i < |routes| ==> !(r.Shape()[..n + 1] <= routes[i].Shape())
  {
    var s, p, t := routes[j].Shape(), r.Shape(), Build(routes);
    n := FirstClash(s, p);
    BuildHolds(routes, [], "");
    assert s[..n + 1] == p[..n] + [s[n]] && p[..n + 1] == p[..n] + [p[n]];
    var _ := PlacesArePrefixes(routes, s[..n + 1]);
    PrefixPlace(t, p[..n], s[n]);
    k := ClashChild(t, p[..n], s[n], p[n]);
    var _ := PlacesArePrefixes(routes, p[..n + 1]);
  }

  ghost predicate ClashAt(d: Tree, k: nat, q: Seg) {
    && k < |d.children| && ChildAt(d.children, q) == |d.children|
    && Kind(d.children[k]) != q && !Apart(Kind(d.children[k]), q)
  }

  lemma {:induction false} ClashChild(t: Tree, p: Pattern, s: Seg, q: Seg) returns (k: nat)
    requires WF(t) && NodeAt(t, p).Some? && NodeAt(t, p + [s]).Some? && s != q && !Apart(s, q)
    ensures WF(NodeAt(t, p).value) && ClashAt(NodeAt(t, p).value, k, q)
    ensures NodeAt(t, p + [q]).None?
  {
    var d := NodeAt(t, p).value;
    NodeAtWF(t, p);
    NodeAtAppend(t, p, s);
    NodeAtAppend(t, p, q);
    k := ChildAt(d.children, s);
    NotBothChildren(d, k, q);
  }

  /** The route that owns a static child. */
  lemma {:induction false} OwnerOfChild(routes: seq<Route>, p: Pattern, i: nat) returns (v: nat)
    requires GoodTable(routes) && NodeAt(Build(routes), p).Some?
    requires i < |NodeAt(Build(routes), p).value.children|
    ensures v < |routes| && p + [Kind(NodeAt(Build(routes), p).value.children[i])] <= routes[v].Shape()
  {
    var t := Build(routes);
    var d := NodeAt(t, p).value;
    BuildHolds(routes, [], "");
    NodeAtWF(t, p);
    NodeAtAppend(t, p, Kind(d.children[i]));
    ChildIsUnique(d.children, i);
    v := PlacesArePrefixes(routes, p + [Kind(d.children[i])]);
  }

  /** The node at which r breaks the limits, the text lost there, and whose it is. */
  lemma {:induction false} FindDamage(routes: seq<Route>, r: Route, j: nat) returns (n: nat, x: string, v: nat)
    requires GoodTable(routes) && WellFormed(r.segments) && j < |routes|
    requires !Compatible(routes[j].Shape(), r.Shape())
    ensures n < |r.segments| && DamagedAt(Build(routes), r.segments, n, x, r.method_, r.handler, r.Shape()[n] == Any)
    ensures v <= |routes|
    ensures if v < |routes| then r.Shape()[..n] + [Lit(x)] <= routes[v].Shape() && r.Shape()[n] != Lit(x)
            else r.Shape()[n] == Lit(x)
    ensures forall i :: 0 <= i < |routes| ==> !(r.Shape()[..n + 1] <= routes[i].Shape())
  {
    var k;
    n, k := ClashNode(routes, r, j);
    var d := NodeAt(Build(routes), r.Shape()[..n]).value;
    var old_, i;
    x, old_, i := DamageAtNode(d, r.segments[n..], r.method_, r.handler, k);
    v := |routes|;
    if old_ {
      v := OwnerOfChild(routes, r.Shape()[..n], i);
    }
  }

  lemma {:induction false} PrefixPlace(t: Tree, p: Pattern, s: Seg)
    requires NodeAt(t, p + [s]).Some?
    ensures NodeAt(t, p).Some?
    decreases |p|
  {
    if p != [] {
      assert (p + [s])[0] == p[0] && (p + [s])[1..] == p[1..] + [s];
      PrefixPlace(t.children[ChildAt(t.children, p[0])], p[1..], s);
    }
  }

  lemma {:induction false} KindsApart(cs: seq<Tree>, i: nat, j: nat)
    requires Ordered(cs) && i < |cs| && j < |cs| && i != j
    ensures Apart(Kind(cs[i]), Kind(cs[j]))
  {
    if i < j {
      assert KindBefore(Kind(cs[i]), Kind(cs[j]));
    } else {
      assert KindBefore(Kind(cs[j]), Kind(cs[i]));
    }
  }

  lemma {:induction false} NotBothChildren(d: Tree, k: nat, q: Seg)
    requires WF(d) && k < |d.children| && Kind(d.children[k]) != q && !Apart(Kind(d.children[k]), q)
    ensures ChildAt(d.children, q) == |d.children|
  {
    var i := ChildAt(d.children, q);
    if i < |d.children| {
      KindsApart(d.children, k, i);
    }
  }

  /** A search that goes through the damage does not find the handler of a route
      through the lost text. */
  lemma {:induction false} LostHandler(routes: seq<Route>, r: Route, n: nat, x: string, req: seq<string>,
                                       m: string, k: nat)
    requires GoodTable(routes) && WellFormed(r.segments) && DistinctHandlers(routes + [r])
    requires n < |r.segments| && n < |req| && req[n] == x
    requires DamagedAt(Build(routes), r.segments, n, x, r.method_, r.handler, r.Shape()[n] == Any)
    requires k <= |routes|
    requires if k < |routes| then r.Shape()[..n] + [Lit(x)] <= routes[k].Shape() else r.Shape()[n] == Lit(x)
    ensures Lookup(routes + [r], req, m).handler != Some((routes + [r])[k].handler)
  {
    var more := routes + [r];
    assert more[..|more| - 1] == routes;
    if Lookup(more, req, m).handler == Some(more[k].handler) {
      var u := WhereFound(routes, r, n, req, m, more[k].handler);
      assert more[|routes|] == r;
      if !(r.Shape()[n] == Any && more[k].handler == r.handler) {
        HandlerHasOnePlace(routes, r, u, m, k);
      }
    }
  }

  lemma {:induction false} WhereFound(routes: seq<Route>, r: Route, n: nat, req: seq<string>, m: string, h: Handler)
      returns (u: Pattern)
    requires GoodTable(routes) && WellFormed(r.segments)
    requires n < |r.segments| && n < |req|
    requires DamagedAt(Build(routes), r.segments, n, req[n], r.method_, r.handler, r.Shape()[n] == Any)
    requires Lookup(routes + [r], req, m).handler == Some(h)
    ensures (r.Shape()[n] == Any && h == r.handler) ||
      (HandlerAt(Build(routes), u, m) == Some(h) && !(r.Shape()[..n] + [Lit(req[n])] <= u))
  {
    assert (routes + [r])[..|routes + [r]| - 1] == routes;
    BuildHolds(routes, [], m);
    FindReaches(Build(routes + [r]), req, m, map[]);
    u := DamagedReach(Build(routes), r.segments, r.method_, r.handler, r.Shape()[n] == Any, n, req, m, h);
  }

  /** With a handler of its own for every route, a handler stands at its route's place only. */
  lemma {:induction false} HandlerHasOnePlace(routes: seq<Route>, r: Route, u: Pattern, m: string, k: nat)
    requires GoodTable(routes) && DistinctHandlers(routes + [r]) && k <= |routes|
    requires HandlerAt(Build(routes), u, m) == Some((routes + [r])[k].handler)
    ensures k < |routes| && u == routes[k].Shape()
  {
    BuildHolds(routes, u, m);
    var i := LatestRoute(routes, u, m);
    assert (routes + [r])[i] == routes[i];
  }

  /** A registration that breaks the limits loses a route: some request has a best
      route whose handler the trie does not return. */
  lemma {:induction false} BrokenLimitsLoseARoute(routes: seq<Route>, r: Route, j: nat)
    requires GoodTable(routes) && WellFormed(r.segments) && DistinctHandlers(routes + [r])
    requires j < |routes| && !Compatible(routes[j].Shape(), r.Shape())
    ensures !Refines(routes + [r])
  {
    var more := routes + [r];
    var n, x, v := FindDamage(routes, r, j);
    var victim := more[v];
    var f := UnusedText(more, 0);
    assert victim.Shape()[n] == Lit(x) by {
      if v < |routes| {
        assert (r.Shape()[..n] + [Lit(x)])[n] == Lit(x);
      }
    }
    var req, m := Sample(victim.Shape(), f), victim.method_;
    SampleMatches(victim.Shape(), f, n);
    var k := BestThroughVictim(routes, r, n, x, v, f);
    LostHandler(routes, r, n, x, req, m, k);
    assert !Agrees(more, req, m);
  }

  lemma {:induction false} BeatsItself(p: Pattern)
    ensures Beats(p, p)
  {
    if p != [] {
      BeatsItself(p[1..]);
    }
  }

  /** The requests of a route through the lost text have a best route through it. */
  lemma {:induction false} BestThroughVictim(routes: seq<Route>, r: Route, n: nat, x: string, v: nat, f: string)
      returns (k: nat)
    requires GoodTable(routes) && WellFormed(r.segments) && Unused(routes + [r], f)
    requires n < |r.segments| && v <= |routes|
    requires if v < |routes| then r.Shape()[..n] + [Lit(x)] <= routes[v].Shape() && r.Shape()[n] != Lit(x)
             else r.Shape()[n] == Lit(x)
    requires forall i :: 0 <= i < |routes| ==> !(r.Shape()[..n + 1] <= routes[i].Shape())
    ensures var victim := (routes + [r])[v];
      IsBest(routes + [r], k, Sample(victim.Shape(), f), victim.method_)
    ensures k <= |routes|
    ensures if k < |routes| then r.Shape()[..n] + [Lit(x)] <= routes[k].Shape() else r.Shape()[n] == Lit(x)
  {
    if v == |routes| {
      k := v;
      NewRouteIsBest(routes, r, n, f);
    } else {
      k := BestOfOldVictim(routes, r, n, x, v, f);
    }
  }

  lemma {:induction false} NewRouteIsBest(routes: seq<Route>, r: Route, n: nat, f: string)
    requires WellFormed(r.segments) && Unused(routes + [r], f)
    requires n < |r.segments| && r.Shape()[n].Lit?
    requires forall i :: 0 <= i < |routes| ==> !(r.Shape()[..n + 1] <= routes[i].Shape())
    ensures IsBest(routes + [r], |routes|, Sample(r.Shape(), f), r.method_)
  {
    var more, p := routes + [r], r.Shape();
    var req, m := Sample(p, f), r.method_;
    SampleMatches(p, f, n);
    BeatsItself(p);
    forall i | 0 <= i < |more| && Serves(more[i], req, m) ensures Beats(p, more[i].Shape()) {
      if i < |routes| {
        OffPathLoses(p, n, f, more[i].Shape(), p);
      }
    }
  }

  lemma {:induction false} BestOfOldVictim(routes: seq<Route>, r: Route, n: nat, x: string, v: nat, f: string)
      returns (k: nat)
    requires GoodTable(routes) && WellFormed(r.segments) && Unused(routes + [r], f)
    requires n < |r.segments| && v < |routes|
    requires r.Shape()[..n] + [Lit(x)] <= routes[v].Shape() && r.Shape()[n] != Lit(x)
    ensures k < |routes| && IsBest(routes + [r], k, Sample(routes[v].Shape(), f), routes[v].method_)
    ensures r.Shape()[..n] + [Lit(x)] <= routes[k].Shape()
  {
    var p, shape, m := r.Shape(), routes[v].Shape(), routes[v].method_;
    var req, lost := Sample(shape, f), p[..n] + [Lit(x)];
    assert shape[..n + 1] == lost && shape[n] == lost[n];
    SampleMatches(shape, f, n);
    LookupRefinesTable(routes, req, m);
    assert Serves(routes[v], req, m);
    k :| IsBest(routes, k, req, m) && routes[k].handler == Lookup(routes, req, m).handler.value;
    UnusedBefore(routes, r, f);
    OffPathLoses(shape, n, f, routes[k].Shape(), shape);
    assert !(lost <= p) by {
      assert lost[n] != p[n];
    }
    StaysBest(routes, r, k, n, shape, f, m);
  }

  lemma {:induction false} UnusedBefore(routes: seq<Route>, r: Route, f: string)
    requires Unused(routes + [r], f)
    ensures Unused(routes, f) && Unused([r], f)
  {
    var more := routes + [r];
    assert more[|routes|] == r;
    assert forall k :: 0 <= k < |routes| ==> more[k] == routes[k];
  }

  lemma {:induction false} StaysBest(routes: seq<Route>, r: Route, k: nat, n: nat, shape: Pattern, f: string, m: string)
    requires Unused([r], f) && n < |shape| && shape[n].Lit? && forall i :: 0 <= i < n ==> shape[i] != Any
    requires IsBest(routes, k, Sample(shape, f), m)
    requires shape[..n + 1] <= routes[k].Shape() && !(shape[..n + 1] <= r.Shape())
    ensures IsBest(routes + [r], k, Sample(shape, f), m)
  {
    var more, best, req := routes + [r], routes[k].Shape(), Sample(shape, f);
    forall i | 0 <= i < |more| && Serves(more[i], req, m)
      ensures Beats(best, more[i].Shape()) && (more[i].Shape() == best ==> i <= k)
    {
      if i < |routes| {
        assert Serves(routes[i], req, m);
      } else {
        assert [r][0] == r;
        OffPathLoses(shape, n, f, r.Shape(), best);
      }
    }
  }

  /** The limits are exact.  With a handler of its own for every route, the trie
      answers like the flat table after each of the registrations if and only if no
      two patterns break the limits. */
  lemma {:induction false} LimitsAreExact(routes: seq<Route>)
    requires forall k :: 0 <= k < |routes| ==> WellFormed(routes[k].segments)
    requires DistinctHandlers(routes)
    ensures GoodTable(routes) <==> forall n :: 0 <= n <= |routes| ==> Refines(routes[..n])
  {
    if GoodTable(routes) {
      forall n, req, m | 0 <= n <= |routes| ensures Agrees(routes[..n], req, m) {
        assert forall k :: 0 <= k < n ==> routes[..n][k] == routes[k];
        LookupRefinesTable(routes[..n], req, m);
      }
    } else {
      var n := FirstBadPrefix(routes, |routes|);
      var good, r := routes[..n], routes[n];
      assert routes[..n + 1] == good + [r];
      var j :| 0 <= j < n && !Compatible(good[j].Shape(), r.Shape());
      BrokenLimitsLoseARoute(good, r, j);
    }
  }

  lemma {:induction false} FirstBadPrefix(routes: seq<Route>, top: nat) returns (n: nat)
    requires top <= |routes| && !GoodTable(routes[..top])
    requires forall k :: 0 <= k < |routes| ==> WellFormed(routes[k].segments)
    ensures n < top && GoodTable(routes[..n])
    ensures exists j :: 0 <= j < n && !Compatible(routes[..n][j].Shape(), routes[n].Shape())
  {
    if GoodTable(routes[..top - 1]) {
      n := top - 1;
    } else {
      n := FirstBadPrefix(routes, top - 1);
    }
  }

  // --------------------------------------------------------- the third limit

  /** A parameter named "*" becomes a node that is parameter and wildcard at once: its
      route, for one segment, also answers any request of more. */
  lemma {:induction false} StarParamTakesMany(m: string, h: Handler, req: seq<string>)
    requires |req| >= 2
    ensures Lookup([Route(m, [":*"], h)], req, m) == Found(Some(h), map["*" := Paths.Join(req)])
    ensures !Serves(Route(m, [":*"], h), req, m)
  {
    var r := Route(m, [":*"], h);
    var c := Tree("*", true, true, [], map[m := h]);
    assert ":*"[1..] == "*";
    assert Insert(NewNode("*", true), [], m, h) == c;
    assert [r][..0] == [] && Build([r]) == Tree("", false, false, [c], map[]);
    var tried: Params := map["*" := req[0]];
    assert Find(c, req[1..], m, tried) == Found(None, tried);
    assert tried - {"*"} == map[] && [c][1..] == [];
    var none: Params := map[];
    assert ParamPass([c], req, m, none) == Found(None, none);
    assert StaticPass([c], req, m, none) == Found(None, none);
    assert WildcardPass([c], req, m, none) == Found(Some(h), map["*" := Paths.Join(req)]);
    var root := Tree("", false, false, [c], map[]);
    assert Find(root, req, m, none) == Found(Some(h), map["*" := Paths.Join(req)]);
    var p := [Par];
    assert r.Shape() == p && p[1..] == [] && !Matches(p[1..], req[1..]);
  }
}
