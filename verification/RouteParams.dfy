/** What the search leaves in the params map, in terms of the flat table, although
    it writes and deletes entries while it backtracks
    (server/internal/router/router.go). */
module RouteParams {
  import opened Paths
  import opened RouteTable
  import opened Wrappers
  import opened Trie

  // ------------------------------------------------- a search that fails

  /** A failed search leaves no entry that was not there before: on an empty map it
      leaves the map empty.  True of every tree. */
  lemma {:induction false} FailureAddsNothing(t: Tree, req: seq<string>, m: string, params: Params)
    ensures var r := Find(t, req, m, params); r.handler.None? ==> r.params.Items <= params.Items
    decreases |req|, 1, 0
  {
    if req != [] {
      StaticFailure(t.children, req, m, params);
      var s := StaticPass(t.children, req, m, params);
      ParamFailure(t.children, req, m, s.params);
      WildcardFailure(t.children, req, m, ParamPass(t.children, req, m, s.params).params);
    }
  }

  lemma {:induction false} StaticFailure(cs: seq<Tree>, req: seq<string>, m: string, params: Params)
    requires req != []
    ensures var r := StaticPass(cs, req, m, params); r.handler.None? ==> r.params.Items <= params.Items
    decreases |req|, 0, |cs|
  {
    if cs != [] {
      FailureAddsNothing(cs[0], req[1..], m, params);
      StaticFailure(cs[1..], req, m, params);
      StaticFailure(cs[1..], req, m, Find(cs[0], req[1..], m, params).params);
    }
  }

  lemma {:induction false} ParamFailure(cs: seq<Tree>, req: seq<string>, m: string, params: Params)
    requires req != []
    ensures var r := ParamPass(cs, req, m, params); r.handler.None? ==> r.params.Items <= params.Items
    decreases |req|, 0, |cs|
  {
    if cs != [] {
      var name := cs[0].part;
      var inner := Find(cs[0], req[1..], m, params[name := req[0]]);
      FailureAddsNothing(cs[0], req[1..], m, params[name := req[0]]);
      ParamFailure(cs[1..], req, m, params);
      ParamFailure(cs[1..], req, m, inner.params - {name});
      if inner.handler.None? {
        forall x | x in (inner.params - {name}).Items ensures x in params.Items {
          assert x in inner.params.Items;
        }
      }
    }
  }

  lemma {:induction false} WildcardFailure(cs: seq<Tree>, req: seq<string>, m: string, params: Params)
    ensures var r := WildcardPass(cs, req, m, params); r.handler.None? ==> r.params == params
    decreases |cs|
  {
    if cs != [] {
      WildcardFailure(cs[1..], req, m, params);
    }
  }

  lemma {:induction false} FailedLookupLeavesNothing(routes: seq<Route>, req: seq<string>, m: string)
    ensures Lookup(routes, req, m).handler.None? ==> Lookup(routes, req, m).params == map[]
  {
    FailureAddsNothing(Build(routes), req, m, map[]);
    var r := Lookup(routes, req, m).params;
    if r != map[] {
      var k :| k in r;
      assert (k, r[k]) in r.Items;
    }
  }

  // ----------------------------------------------- what a search gives up

  predicate EndsInParam(p: Pattern) { p != [] && p[|p| - 1] == Par }

  /** The names of the parameter places that a failing search enters: it deletes each
      of them as it leaves. */
  function Tried(t: Tree, req: seq<string>): set<string>
    decreases |req|
  {
    if req == [] then {}
    else
      var cs := t.children;
      var i, j := ChildAt(cs, Lit(req[0])), ChildAt(cs, Par);
      var statics := if i < |cs| then Tried(cs[i], req[1..]) else {};
      var params := if j < |cs| then {cs[j].part} + Tried(cs[j], req[1..]) else {};
      statics + params
  }

  /** A parameter place of this name that the request's segments lead to. */
  ghost predicate Enters(t: Tree, req: seq<string>, q: Pattern, name: string) {
    EndsInParam(q) && |q| <= |req| && Matches(q, req[..|q|]) && PartAt(t, q) == Some(name)
  }

  lemma {:induction false} EntersHere(t: Tree, req: seq<string>)
    requires req != []
    ensures var j := ChildAt(t.children, Par);
      forall name :: Enters(t, req, [Par], name) <==> j < |t.children| && t.children[j].part == name
  {
    NodeBelowOrNot(t, Par, []);
    var p := [Par];
    assert p + [] == p && p[1..] == [] && req[..1][1..] == [];
    assert Matches(p, req[..1]) && EndsInParam(p);
  }

  lemma {:induction false} NodeBelowOrNot(t: Tree, s: Seg, p: Pattern)
    ensures var k := ChildAt(t.children, s);
      NodeAt(t, [s] + p) == if k < |t.children| then NodeAt(t.children[k], p) else None
  {
    assert ([s] + p)[1..] == p;
  }

  lemma {:induction false} EntersBelow(t: Tree, req: seq<string>, s: Seg, q: Pattern, name: string)
    requires WF(t) && req != [] && q != []
    ensures var k := ChildAt(t.children, s);
      Enters(t, req, [s] + q, name) <==>
        k < |t.children| && (s == Par || s == Lit(req[0])) && Enters(t.children[k], req[1..], q, name)
  {
    var p := [s] + q;
    NodeBelowOrNot(t, s, q);
    assert p[1..] == q && p[|p| - 1] == q[|q| - 1];
    if |p| <= |req| {
      assert req[..|p|][0] == req[0] && req[..|p|][1..] == req[1..][..|q|];
    }
    if s == Any {
      ChildrenWF(t);
      var k := ChildAt(t.children, Any);
      if k < |t.children| {
        LeafHasNoPaths(t.children[k], q);
      }
    }
  }

  lemma {:induction false} TriedIsEntered(t: Tree, req: seq<string>, name: string) returns (q: Pattern)
    requires WF(t) && name in Tried(t, req)
    ensures Enters(t, req, q, name)
    decreases |req|
  {
    ChildrenWF(t);
    var cs := t.children;
    var i, j := ChildAt(cs, Lit(req[0])), ChildAt(cs, Par);
    EntersHere(t, req);
    if i < |cs| && name in Tried(cs[i], req[1..]) {
      q := TriedIsEntered(cs[i], req[1..], name);
      EntersBelow(t, req, Lit(req[0]), q, name);
      q := [Lit(req[0])] + q;
    } else if cs[j].part == name {
      q := [Par];
    } else {
      q := TriedIsEntered(cs[j], req[1..], name);
      EntersBelow(t, req, Par, q, name);
      q := [Par] + q;
    }
  }

  lemma {:induction false} EnteredIsTried(t: Tree, req: seq<string>, q: Pattern, name: string)
    requires WF(t) && Enters(t, req, q, name)
    ensures name in Tried(t, req)
    decreases |req|
  {
    ChildrenWF(t);
    EntersHere(t, req);
    if |q| > 1 {
      assert q == [q[0]] + q[1..];
      EntersBelow(t, req, q[0], q[1..], name);
      EnteredIsTried(t.children[ChildAt(t.children, q[0])], req[1..], q[1..], name);
    } else {
      assert q == [Par];
    }
  }

  /** The names tried at a node before it goes on with a child of this kind. */
  function TriedBefore(t: Tree, req: seq<string>, s: Seg): set<string>
    requires req != []
  {
    match s
    case Lit(_) => {}
    case Par =>
      var i := ChildAt(t.children, Lit(req[0]));
      if i < |t.children| then Tried(t.children[i], req[1..]) else {}
    case Any => Tried(t, req)
  }

  /** A search that fails forgets exactly the names it has tried. */
  lemma {:induction false} FailureForgets(t: Tree, req: seq<string>, m: string, params: Params)
    requires WF(t) && Chosen(t, req, m).None?
    ensures Find(t, req, m, params) == Found(None, params - Tried(t, req))
    decreases |req|, 1
  {
    if req == [] {
      assert params - {} == params;
    } else {
      ChildrenWF(t);
      var left := StaticForgets(t, req, m, params);
      var after := ParamForgets(t, req, m, params, left);
      WildcardPassTries(t.children, req, m, after);
    }
  }

  lemma {:induction false} StaticForgets(t: Tree, req: seq<string>, m: string, params: Params) returns (after: Params)
    requires WF(t) && req != []
    requires var i := ChildAt(t.children, Lit(req[0])); i < |t.children| ==> Chosen(t.children[i], req[1..], m).None?
    ensures after == params - TriedBefore(t, req, Par) && StaticPass(t.children, req, m, params) == Found(None, after)
    decreases |req|, 0
  {
    ChildrenWF(t);
    var i := ChildAt(t.children, Lit(req[0]));
    StaticPassTries(t.children, req, m, params);
    after := params - TriedBefore(t, req, Par);
    if i < |t.children| {
      FailureForgets(t.children[i], req[1..], m, params);
    } else {
      assert params - {} == params;
    }
  }

  lemma {:induction false} ParamForgets(t: Tree, req: seq<string>, m: string, params: Params, left: Params)
      returns (after: Params)
    requires WF(t) && req != [] && left == params - TriedBefore(t, req, Par)
    requires var j := ChildAt(t.children, Par); j < |t.children| ==> Chosen(t.children[j], req[1..], m).None?
    ensures after == params - Tried(t, req) && ParamPass(t.children, req, m, left) == Found(None, after)
    decreases |req|, 0
  {
    ChildrenWF(t);
    var j := ChildAt(t.children, Par);
    ParamPassTries(t.children, req, m, left);
    after := params - Tried(t, req);
    if j < |t.children| {
      var c := t.children[j];
      FailureForgets(c, req[1..], m, left[c.part := req[0]]);
      ForgetOne(left, c.part, req[0], Tried(c, req[1..]));
      ForgetBoth(params, TriedBefore(t, req, Par), {c.part} + Tried(c, req[1..]), Tried(t, req));
    } else {
      assert Tried(t, req) == TriedBefore(t, req, Par);
    }
  }

  lemma {:induction false} ForgetOne(params: Params, name: string, v: string, a: set<string>)
    ensures params[name := v] - a - {name} == params - ({name} + a)
  {
  }

  lemma {:induction false} ForgetBoth(params: Params, a: set<string>, b: set<string>, c: set<string>)
    requires c == a + b
    ensures params - a - b == params - c
  {
  }

  // ----------------------------------------------- a search that succeeds

  /** The names tried beside the path that are not bound again at that node or below. */
  function Lost(t: Tree, p: Pattern, req: seq<string>): set<string>
    requires Matches(p, req) && NodeAt(t, p).Some?
    decreases |p|
  {
    if p == [] then {}
    else
      TriedBefore(t, req, p[0]) - Bindings(t, p, req).Keys +
      if p[0] == Any then {} else Lost(t.children[ChildAt(t.children, p[0])], p[1..], req[1..])
  }

  /** What the search makes of the map when it chooses pattern p. */
  function ParamsAfter(t: Tree, p: Pattern, req: seq<string>, params: Params): Params
    requires Matches(p, req) && NodeAt(t, p).Some?
  {
    (params + Bindings(t, p, req)) - Lost(t, p, req)
  }

  /** In any intact tree, whatever its names: a successful search adds the bindings
      along its choice and takes away the names it lost. */
  lemma {:induction false} FindBinds(t: Tree, req: seq<string>, m: string, params: Params)
    requires WF(t) && Chosen(t, req, m).Some?
    ensures Matches(Chosen(t, req, m).value, req) && NodeAt(t, Chosen(t, req, m).value).Some?
    ensures Find(t, req, m, params).params == ParamsAfter(t, Chosen(t, req, m).value, req, params)
    decreases |req|
  {
    ChosenMatches(t, req, m);
    FindChooses(t, req, m, params);
    var p := Chosen(t, req, m).value;
    if p == [] {
      assert params + map[] - {} == params;
    } else {
      match p[0]
      case Lit(_) => StaticBinds(t, req, m, params);
      case Par => ParamBinds(t, req, m, params);
      case Any => WildcardBinds(t, req, m, params);
    }
  }

  lemma {:induction false} StaticFound(t: Tree, req: seq<string>, m: string, params: Params)
    requires WF(t) && req != [] && Chosen(t, req, m).Some? && Chosen(t, req, m).value[0].Lit?
    ensures var k := ChildAt(t.children, Lit(req[0]));
      && k < |t.children| && WF(t.children[k]) && Chosen(t.children[k], req[1..], m).Some?
      && Chosen(t, req, m).value == [Lit(req[0])] + Chosen(t.children[k], req[1..], m).value
      && Find(t, req, m, params) == Find(t.children[k], req[1..], m, params)
  {
    ChildrenWF(t);
    var c := t.children[ChildAt(t.children, Lit(req[0]))];
    StaticPassTries(t.children, req, m, params);
    FindChooses(c, req[1..], m, params);
    ChosenMatches(c, req[1..], m);
  }

  lemma {:induction false} StaticBinds(t: Tree, req: seq<string>, m: string, params: Params)
    requires WF(t) && req != [] && Chosen(t, req, m).Some? && Chosen(t, req, m).value[0].Lit?
    requires Matches(Chosen(t, req, m).value, req) && NodeAt(t, Chosen(t, req, m).value).Some?
    ensures Find(t, req, m, params).params == ParamsAfter(t, Chosen(t, req, m).value, req, params)
    decreases |req|, 0
  {
    StaticFound(t, req, m, params);
    var c := t.children[ChildAt(t.children, Lit(req[0]))];
    FindBinds(c, req[1..], m, params);
    var p := Chosen(c, req[1..], m).value;
    PathBelow(t, Lit(req[0]), p, req);
    assert map[] + Bindings(c, p, req[1..]) == Bindings(c, p, req[1..]);
    assert {} - Bindings(t, [Lit(req[0])] + p, req).Keys + Lost(c, p, req[1..]) == Lost(c, p, req[1..]);
  }

  lemma {:induction false} ParamBinds(t: Tree, req: seq<string>, m: string, params: Params)
    requires WF(t) && req != [] && Chosen(t, req, m).Some? && Chosen(t, req, m).value[0].Par?
    requires Matches(Chosen(t, req, m).value, req) && NodeAt(t, Chosen(t, req, m).value).Some?
    ensures Find(t, req, m, params).params == ParamsAfter(t, Chosen(t, req, m).value, req, params)
    decreases |req|, 0
  {
    ChildrenWF(t);
    var c := t.children[ChildAt(t.children, Par)];
    var left := StaticForgets(t, req, m, params);
    var bound := left[c.part := req[0]];
    ParamPassTries(t.children, req, m, left);
    FindBinds(c, req[1..], m, bound);
    FindChooses(c, req[1..], m, bound);
    ChosenMatches(c, req[1..], m);
    var p := Chosen(c, req[1..], m).value;
    PathBelow(t, Par, p, req);
    assert Chosen(t, req, m).value == [Par] + p;
    BindAbove(params, TriedBefore(t, req, Par), c.part, req[0], Bindings(c, p, req[1..]), Lost(c, p, req[1..]));
  }

  lemma {:induction false} WildcardBinds(t: Tree, req: seq<string>, m: string, params: Params)
    requires WF(t) && req != [] && Chosen(t, req, m).Some? && Chosen(t, req, m).value[0].Any?
    requires Matches(Chosen(t, req, m).value, req) && NodeAt(t, Chosen(t, req, m).value).Some?
    ensures Find(t, req, m, params).params == ParamsAfter(t, Chosen(t, req, m).value, req, params)
    decreases |req|, 0
  {
    ChildrenWF(t);
    var left := StaticForgets(t, req, m, params);
    var after := ParamForgets(t, req, m, params, left);
    WildcardPassTries(t.children, req, m, after);
    BindStar(params, Tried(t, req), Join(req));
  }

  lemma {:induction false} PathBelow(t: Tree, s: Seg, p: Pattern, req: seq<string>)
    requires req != [] && s != Any && (s.Lit? ==> s.text == req[0])
    requires ChildAt(t.children, s) < |t.children|
    requires var c := t.children[ChildAt(t.children, s)]; Matches(p, req[1..]) && NodeAt(c, p).Some?
    ensures Matches([s] + p, req) && NodeAt(t, [s] + p).Some?
    ensures var c := t.children[ChildAt(t.children, s)];
      && Bindings(t, [s] + p, req) == (if s == Par then map[c.part := req[0]] else map[]) + Bindings(c, p, req[1..])
      && Lost(t, [s] + p, req) == TriedBefore(t, req, s) - Bindings(t, [s] + p, req).Keys + Lost(c, p, req[1..])
  {
    NodeBelow(t, s, p);
    assert ([s] + p)[1..] == p;
    var b := Bindings(t.children[ChildAt(t.children, s)], p, req[1..]);
    assert map[] + b == b;
  }

  lemma {:induction false} BindAbove(params: Params, a: set<string>, name: string, v: string, b: Params, l: set<string>)
    ensures ((params - a)[name := v] + b) - l == (params + (map[name := v] + b)) - ((a - (map[name := v] + b).Keys) + l)
  {
  }

  lemma {:induction false} BindStar(params: Params, a: set<string>, v: string)
    ensures (params - a)["*" := v] == (params + map["*" := v]) - (a - map["*" := v].Keys + {})
  {
  }

  // ---------------------------------------- the same, place by place

  /** The step at g of pattern p binds this name. */
  ghost predicate BoundAt(t: Tree, p: Pattern, g: nat, name: string)
    requires g < |p|
  {
    (p[g] == Par && PartAt(t, p[..g + 1]) == Some(name)) || (p[g] == Any && name == "*")
  }

  ghost predicate BoundFrom(t: Tree, p: Pattern, e: nat, name: string) {
    exists g :: e <= g < |p| && BoundAt(t, p, g, name)
  }

  /** Before it goes on with step e of pattern p the search enters the parameter place
      q in vain, and the name of q is not bound at that step or later. */
  ghost predicate GivesUp(t: Tree, p: Pattern, req: seq<string>, name: string, e: nat, q: Pattern) {
    && e < |p| && e < |q| && q[..e] == p[..e] && Rank(q[e]) < Rank(p[e])
    && Enters(t, req, q, name) && !BoundFrom(t, p, e, name)
  }

  lemma {:induction false} BoundBelow(t: Tree, s: Seg, p: Pattern, g: nat, name: string)
    requires ChildAt(t.children, s) < |t.children| && g < |p|
    ensures BoundAt(t, [s] + p, g + 1, name) <==> BoundAt(t.children[ChildAt(t.children, s)], p, g, name)
  {
    var c := t.children[ChildAt(t.children, s)];
    assert ([s] + p)[..g + 2] == [s] + p[..g + 1];
    NodeBelow(t, s, p[..g + 1]);
  }

  lemma {:induction false} BoundFromBelow(t: Tree, s: Seg, p: Pattern, e: nat, name: string)
    requires ChildAt(t.children, s) < |t.children|
    ensures BoundFrom(t, [s] + p, e + 1, name) <==> BoundFrom(t.children[ChildAt(t.children, s)], p, e, name)
  {
    var c := t.children[ChildAt(t.children, s)];
    if g :| e + 1 <= g < |[s] + p| && BoundAt(t, [s] + p, g, name) {
      BoundBelow(t, s, p, g - 1, name);
    }
    if g :| e <= g < |p| && BoundAt(c, p, g, name) {
      BoundBelow(t, s, p, g, name);
      assert BoundAt(t, [s] + p, g + 1, name);
    }
  }

  lemma {:induction false} BoundHere(t: Tree, s: Seg, p: Pattern, name: string)
    requires ChildAt(t.children, s) < |t.children|
    ensures BoundFrom(t, [s] + p, 0, name) <==>
      BoundAt(t, [s] + p, 0, name) || BoundFrom(t, [s] + p, 1, name)
    ensures BoundAt(t, [s] + p, 0, name) <==>
      (s == Par && t.children[ChildAt(t.children, s)].part == name) || (s == Any && name == "*")
  {
    var k := ChildAt(t.children, s);
    NodeBelow(t, s, []);
    assert ([s] + p)[..1] == [s] + [] == [s];
    if g :| 0 <= g < |[s] + p| && BoundAt(t, [s] + p, g, name) {
      assert g > 0 ==> BoundFrom(t, [s] + p, 1, name);
    }
    if BoundFrom(t, [s] + p, 1, name) {
      var g :| 1 <= g < |[s] + p| && BoundAt(t, [s] + p, g, name);
    }
  }

  lemma {:induction false} WildcardEnds(t: Tree, p: Pattern)
    requires WF(t) && p != [] && p[0] == Any && NodeAt(t, p).Some?
    ensures p == [Any]
  {
    ChildrenWF(t);
    LeafHasNoPaths(t.children[ChildAt(t.children, Any)], p[1..]);
  }

  /** The names that a path binds. */
  lemma {:induction false} KeysAre(t: Tree, p: Pattern, req: seq<string>, name: string)
    requires WF(t) && Matches(p, req) && NodeAt(t, p).Some?
    ensures name in Bindings(t, p, req).Keys <==> BoundFrom(t, p, 0, name)
    decreases |p|
  {
    if p != [] {
      ChildrenWF(t);
      var c := t.children[ChildAt(t.children, p[0])];
      assert p == [p[0]] + p[1..];
      BoundHere(t, p[0], p[1..], name);
      BoundFromBelow(t, p[0], p[1..], 0, name);
      if p[0] == Any {
        WildcardEnds(t, p);
      } else {
        KeysAre(c, p[1..], req[1..], name);
      }
    }
  }

  lemma {:induction false} TriedBeforeAre(t: Tree, req: seq<string>, s: Seg, name: string)
    requires WF(t) && req != []
    ensures name in TriedBefore(t, req, s) <==> exists q :: q != [] && Rank(q[0]) < Rank(s) && Enters(t, req, q, name)
  {
    ChildrenWF(t);
    var i := ChildAt(t.children, Lit(req[0]));
    if name in TriedBefore(t, req, s) {
      if s == Par {
        var q := TriedIsEntered(t.children[i], req[1..], name);
        EntersBelow(t, req, Lit(req[0]), q, name);
        assert ([Lit(req[0])] + q)[0] == Lit(req[0]) && Enters(t, req, [Lit(req[0])] + q, name);
      } else {
        var q := TriedIsEntered(t, req, name);
        FirstStep(t, req, q, name);
        assert q != [] && Rank(q[0]) < Rank(s);
      }
    }
    if q :| q != [] && Rank(q[0]) < Rank(s) && Enters(t, req, q, name) {
      FirstStep(t, req, q, name);
      if s == Par {
        EnteredIsTried(t.children[i], req[1..], q[1..], name);
      } else {
        EnteredIsTried(t, req, q, name);
      }
    }
  }

  lemma {:induction false} FirstStep(t: Tree, req: seq<string>, q: Pattern, name: string)
    requires WF(t) && req != [] && q != [] && Enters(t, req, q, name)
    ensures q[0] == Par || q[0] == Lit(req[0])
    ensures q[0] != Par ==>
      ChildAt(t.children, q[0]) < |t.children| && Enters(t.children[ChildAt(t.children, q[0])], req[1..], q[1..], name)
  {
    if |q| == 1 {
      assert q == [Par];
    } else {
      assert q == [q[0]] + q[1..];
      EntersBelow(t, req, q[0], q[1..], name);
    }
  }

  lemma {:induction false} GivesUpBelow(t: Tree, req: seq<string>, s: Seg, p: Pattern, name: string, e: nat, q: Pattern)
    requires WF(t) && req != [] && ChildAt(t.children, s) < |t.children| && (s == Par || s == Lit(req[0]))
    ensures GivesUp(t, [s] + p, req, name, e + 1, [s] + q) <==>
            GivesUp(t.children[ChildAt(t.children, s)], p, req[1..], name, e, q)
  {
    var p', q' := [s] + p, [s] + q;
    BoundFromBelow(t, s, p, e, name);
    if q != [] {
      EntersBelow(t, req, s, q, name);
    }
    if e < |p| && e < |q| {
      assert p'[..e + 1] == [s] + p[..e] && q'[..e + 1] == [s] + q[..e];
      assert p[..e] == p'[..e + 1][1..] && q[..e] == q'[..e + 1][1..];
    }
  }

  lemma {:induction false} GivesUpHere(t: Tree, p: Pattern, req: seq<string>, name: string)
    requires WF(t) && Matches(p, req) && NodeAt(t, p).Some? && p != []
    ensures name in TriedBefore(t, req, p[0]) - Bindings(t, p, req).Keys <==>
            exists q :: GivesUp(t, p, req, name, 0, q)
  {
    TriedBeforeAre(t, req, p[0], name);
    KeysAre(t, p, req, name);
    if q :| q != [] && Rank(q[0]) < Rank(p[0]) && Enters(t, req, q, name) {
      assert q[..0] == p[..0];
      assert !BoundFrom(t, p, 0, name) ==> GivesUp(t, p, req, name, 0, q);
    }
    if q :| GivesUp(t, p, req, name, 0, q) {
      assert q != [] && Rank(q[0]) < Rank(p[0]);
    }
  }

  /** The names that a search loses, place by place. */
  lemma {:induction false} LostAre(t: Tree, p: Pattern, req: seq<string>, name: string)
    requires WF(t) && Matches(p, req) && NodeAt(t, p).Some?
    ensures name in Lost(t, p, req) <==> exists e: nat, q :: GivesUp(t, p, req, name, e, q)
    decreases |p|
  {
    if p != [] {
      GivesUpHere(t, p, req, name);
      if p[0] == Any {
        WildcardEnds(t, p);
        assert forall e: nat, q :: GivesUp(t, p, req, name, e, q) ==> e == 0;
      } else {
        LostBelow(t, p, req, name);
      }
    }
  }

  lemma {:induction false} LostBelow(t: Tree, p: Pattern, req: seq<string>, name: string)
    requires WF(t) && Matches(p, req) && NodeAt(t, p).Some? && p != [] && p[0] != Any
    ensures name in Lost(t.children[ChildAt(t.children, p[0])], p[1..], req[1..]) <==>
            exists e: nat, q :: e > 0 && GivesUp(t, p, req, name, e, q)
    decreases |p|, 0
  {
    ChildrenWF(t);
    var c := t.children[ChildAt(t.children, p[0])];
    LostAre(c, p[1..], req[1..], name);
    if e: nat, q :| GivesUp(c, p[1..], req[1..], name, e, q) {
      GivenUpAbove(t, p, req, name, e, q);
    }
    if e: nat, q :| e > 0 && GivesUp(t, p, req, name, e, q) {
      GivenUpBelow(t, p, req, name, e, q);
    }
  }

  lemma {:induction false} GivenUpAbove(t: Tree, p: Pattern, req: seq<string>, name: string, e: nat, q: Pattern)
    requires WF(t) && Matches(p, req) && NodeAt(t, p).Some? && p != [] && p[0] != Any
    requires GivesUp(t.children[ChildAt(t.children, p[0])], p[1..], req[1..], name, e, q)
    ensures GivesUp(t, p, req, name, e + 1, [p[0]] + q)
  {
    GivesUpBelow(t, req, p[0], p[1..], name, e, q);
    assert p == [p[0]] + p[1..];
  }

  lemma {:induction false} GivenUpBelow(t: Tree, p: Pattern, req: seq<string>, name: string, e: nat, q: Pattern)
    requires WF(t) && Matches(p, req) && NodeAt(t, p).Some? && p != [] && p[0] != Any
    requires e > 0 && GivesUp(t, p, req, name, e, q)
    ensures GivesUp(t.children[ChildAt(t.children, p[0])], p[1..], req[1..], name, e - 1, q[1..])
  {
    assert q[0] == q[..e][0] == p[..e][0] == p[0];
    assert p == [p[0]] + p[1..] && q == [p[0]] + q[1..];
    GivesUpBelow(t, req, p[0], p[1..], name, e - 1, q[1..]);
  }

  /** A search that starts from an empty map binds exactly what its choice says if and
      only if it never gives up, beside the path, the name of a parameter that the path
      has bound above and does not bind again. */
  lemma {:induction false} BindsExactlyIff(t: Tree, req: seq<string>, m: string)
    requires WF(t) && Chosen(t, req, m).Some?
    ensures var p := Chosen(t, req, m).value;
      && Matches(p, req) && NodeAt(t, p).Some?
      && (Find(t, req, m, map[]).params == Bindings(t, p, req) <==> !Reuses(t, p, req))
  {
    FindBinds(t, req, m, map[]);
    var p := Chosen(t, req, m).value;
    assert map[] + Bindings(t, p, req) == Bindings(t, p, req);
    LosesNothing(Bindings(t, p, req), Lost(t, p, req));
    LosesIffReuses(t, p, req);
  }

  /** Some name is bound above step e and given up at it. */
  ghost predicate Reuses(t: Tree, p: Pattern, req: seq<string>) {
    exists name, e: nat, q :: GivesUp(t, p, req, name, e, q) && BoundFrom(t, p, 0, name)
  }

  lemma {:induction false} LosesIffReuses(t: Tree, p: Pattern, req: seq<string>)
    requires WF(t) && Matches(p, req) && NodeAt(t, p).Some?
    ensures Lost(t, p, req) !! Bindings(t, p, req).Keys <==> !Reuses(t, p, req)
  {
    forall name
      ensures name in Lost(t, p, req) && name in Bindings(t, p, req).Keys <==>
        exists e: nat, q :: GivesUp(t, p, req, name, e, q) && BoundFrom(t, p, 0, name)
    {
      LostAre(t, p, req, name);
      KeysAre(t, p, req, name);
    }
    if !(Lost(t, p, req) !! Bindings(t, p, req).Keys) {
      var name :| name in Lost(t, p, req) && name in Bindings(t, p, req).Keys;
    }
  }

  lemma {:induction false} LosesNothing(params: Params, a: set<string>)
    ensures params - a == params <==> a !! params.Keys
  {
    if params - a == params {
      forall x | x in a ensures x !in params.Keys {
        assert x !in params - a;
      }
    }
  }

  // -------------------------------------------------- in terms of the table

  /** The parameters of a request under pattern pre + p, of which pre is behind it:
      every parameter segment under its name, the rest of the path under "*". */
  function TableBindings(routes: seq<Route>, pre: Pattern, p: Pattern, req: seq<string>): Params
    requires Matches(p, req)
    decreases |p|
  {
    if p == [] then map[]
    else match p[0]
      case Any => map["*" := Join(req)]
      case Lit(_) => TableBindings(routes, pre + [p[0]], p[1..], req[1..])
      case Par =>
        var name := FirstName(routes, pre + [Par]);
        (if name.Some? then map[name.value := req[0]] else map[])
        + TableBindings(routes, pre + [Par], p[1..], req[1..])
  }

  lemma {:induction false} BindingsAreTheTables(routes: seq<Route>, pre: Pattern, p: Pattern, req: seq<string>)
    requires GoodTable(routes) && Matches(p, req)
    requires NodeAt(Build(routes), pre).Some? && NodeAt(NodeAt(Build(routes), pre).value, p).Some?
    ensures Bindings(NodeAt(Build(routes), pre).value, p, req) == TableBindings(routes, pre, p, req)
    decreases |p|
  {
    if p != [] {
      NodeAtAppend(Build(routes), pre, p[0]);
      BuildHolds(routes, pre + [p[0]], "");
      if p[0] != Any {
        BindingsAreTheTables(routes, pre + [p[0]], p[1..], req[1..]);
      }
    }
  }

  lemma {:induction false} BestIsChosen(routes: seq<Route>, req: seq<string>, m: string, k: nat)
    requires GoodTable(routes) && IsBest(routes, k, req, m)
    ensures WF(Build(routes)) && Chosen(Build(routes), req, m) == Some(routes[k].Shape())
  {
    var t, q := Build(routes), routes[k].Shape();
    BuildHolds(routes, q, m);
    var _ := LatestRoute(routes, q, m);
    ChosenBeats(t, req, m, q);
    ChosenMatches(t, req, m);
    var p := Chosen(t, req, m).value;
    BuildHolds(routes, p, m);
    var j := LatestRoute(routes, p, m);
    assert Serves(routes[j], req, m);
    BeatsIsStrict(p, q, req);
  }

  lemma {:induction false} BestIsFound(routes: seq<Route>, req: seq<string>, m: string, k: nat)
    requires GoodTable(routes) && IsBest(routes, k, req, m)
    ensures Lookup(routes, req, m).handler == Some(routes[k].handler)
  {
    LookupRefinesTable(routes, req, m);
  }

  // In terms of the table: FirstName is the name of a place.

  ghost predicate NamedFrom(routes: seq<Route>, p: Pattern, e: nat, name: string) {
    exists g :: e <= g < |p| && Binds(routes, p, g, name)
  }

  ghost predicate Binds(routes: seq<Route>, p: Pattern, g: nat, name: string)
    requires g < |p|
  {
    (p[g] == Par && FirstName(routes, p[..g + 1]) == Some(name)) || (p[g] == Any && name == "*")
  }

  /** Beside step e of the winning pattern p some route has a parameter place q, tried
      first and in vain, whose name p has bound above and does not bind again. */
  ghost predicate Clashes(routes: seq<Route>, p: Pattern, req: seq<string>, name: string, e: nat, q: Pattern) {
    && e < |p| && e < |q| && q[..e] == p[..e] && Rank(q[e]) < Rank(p[e])
    && EndsInParam(q) && |q| <= |req| && Matches(q, req[..|q|]) && FirstName(routes, q) == Some(name)
    && !NamedFrom(routes, p, e, name) && NamedFrom(routes, p, 0, name)
  }

  lemma {:induction false} NamedAsBound(routes: seq<Route>, p: Pattern, e: nat, name: string)
    requires GoodTable(routes)
    ensures NamedFrom(routes, p, e, name) <==> BoundFrom(Build(routes), p, e, name)
  {
    var t := Build(routes);
    forall g | e <= g < |p| ensures Binds(routes, p, g, name) <==> BoundAt(t, p, g, name) {
      BuildHolds(routes, p[..g + 1], "");
    }
    if g :| e <= g < |p| && Binds(routes, p, g, name) {
      assert BoundAt(t, p, g, name);
    }
    if g :| e <= g < |p| && BoundAt(t, p, g, name) {
      assert Binds(routes, p, g, name);
    }
  }

  lemma {:induction false} ClashAsReuse(routes: seq<Route>, p: Pattern, req: seq<string>, name: string, e: nat,
                                        q: Pattern)
    requires GoodTable(routes)
    ensures Clashes(routes, p, req, name, e, q) <==>
            GivesUp(Build(routes), p, req, name, e, q) && BoundFrom(Build(routes), p, 0, name)
  {
    NamedAsBound(routes, p, e, name);
    NamedAsBound(routes, p, 0, name);
    BuildHolds(routes, q, "");
  }

  /** A successful lookup binds exactly the parameters of the best route's pattern, if
      and only if no parameter place tried in vain takes the name of one bound above. */
  lemma {:induction false} LookupBindsBestRoute(routes: seq<Route>, req: seq<string>, m: string, k: nat)
    requires GoodTable(routes) && IsBest(routes, k, req, m)
    ensures Lookup(routes, req, m).handler == Some(routes[k].handler)
    ensures Lookup(routes, req, m).params == TableBindings(routes, [], routes[k].Shape(), req) <==>
      forall name, e: nat, q :: !Clashes(routes, routes[k].Shape(), req, name, e, q)
  {
    var t, p := Build(routes), routes[k].Shape();
    BestIsChosen(routes, req, m, k);
    BestIsFound(routes, req, m, k);
    BindsExactlyIff(t, req, m);
    BindingsAreTheTables(routes, [], p, req);
    forall name, e: nat, q
      ensures Clashes(routes, p, req, name, e, q) <==> GivesUp(t, p, req, name, e, q) && BoundFrom(t, p, 0, name)
    {
      ClashAsReuse(routes, p, req, name, e, q);
    }
  }

  /** No route's path uses one name for two parameters; a place shared by several
      routes goes by the name that the first of them gave it. */
  ghost predicate DistinctNames(routes: seq<Route>) {
    forall k, i, j :: 0 <= k < |routes| && 0 < i < j <= |routes[k].Shape()| ==>
      var p, q := routes[k].Shape()[..i], routes[k].Shape()[..j];
      EndsInParam(p) && EndsInParam(q) ==> FirstName(routes, p) != FirstName(routes, q)
  }

  lemma {:induction false} DistinctOnAPath(routes: seq<Route>, q: Pattern, i: nat)
    requires DistinctNames(routes) && 0 < i < |q| && EndsInParam(q[..i]) && EndsInParam(q) && FirstName(routes, q).Some?
    ensures FirstName(routes, q[..i]) != FirstName(routes, q)
  {
    FirstNameIsFromARoute(routes, q);
    var k: int :| 0 <= k < |routes| && Names(routes[k], q, FirstName(routes, q).value);
    var shape := routes[k].Shape();
    assert shape[..|q|] == q && shape[..i] == q[..i];
  }

  lemma {:induction false} DistinctNeverClash(routes: seq<Route>, p: Pattern, req: seq<string>, name: string,
                                              e: nat, q: Pattern)
    requires GoodTable(routes) && DistinctNames(routes)
    ensures !Clashes(routes, p, req, name, e, q)
  {
    if Clashes(routes, p, req, name, e, q) {
      var g: nat :| g < |p| && Binds(routes, p, g, name);
      FirstNameIsFromARoute(routes, q);
      var k: nat :| k < |routes| && Names(routes[k], q, name);
      NotStar(routes, k, q, name);
      if g < e {
        assert q[..g + 1] == q[..e][..g + 1] == p[..g + 1];
        DistinctOnAPath(routes, q, g + 1);
      }
    }
  }

  lemma {:induction false} NotStar(routes: seq<Route>, k: nat, q: Pattern, name: string)
    requires GoodTable(routes) && k < |routes| && Names(routes[k], q, name) && EndsInParam(q)
    ensures name != "*"
  {
    var segment := routes[k].segments[|q| - 1];
    assert SegOf(segment) == routes[k].Shape()[|q| - 1] == q[|q| - 1];
    assert segment == [':'] + segment[1..];
  }

  /** With different names along every route nothing is lost. */
  lemma {:induction false} DistinctNamesBind(routes: seq<Route>, req: seq<string>, m: string, k: nat)
    requires GoodTable(routes) && DistinctNames(routes) && IsBest(routes, k, req, m)
    ensures Lookup(routes, req, m) == Found(Some(routes[k].handler), TableBindings(routes, [], routes[k].Shape(), req))
  {
    LookupBindsBestRoute(routes, req, m, k);
    forall name, e: nat, q ensures !Clashes(routes, routes[k].Shape(), req, name, e, q) {
      DistinctNeverClash(routes, routes[k].Shape(), req, name, e, q);
    }
  }

  lemma {:induction false} FirstRepeatedRoute(h: Handler, inner: Tree)
    requires inner == Tree("id", true, false, [Tree("x", false, false, [], map["GET" := h])], map[])
    ensures Build([Route("GET", [":id", ":id", "x"], h)]) ==
            Tree("", false, false, [Tree("id", true, false, [inner], map[])], map[])
  {
    var r := Route("GET", [":id", ":id", "x"], h);
    assert Insert(NewNode("x", false), [], "GET", h) == Tree("x", false, false, [], map["GET" := h]);
    assert Insert(NewNode("id", true), ["x"], "GET", h) == inner;
    assert Insert(NewNode("id", true), [":id", "x"], "GET", h) == Tree("id", true, false, [inner], map[]);
    assert [r][..0] == [];
  }

  lemma {:induction false} RepeatedNameTree(h: Handler, h': Handler)
    ensures Build([Route("GET", [":id", ":id", "x"], h), Route("GET", [":id", "*"], h')]) == RepeatedTree(h, h')
  {
    var r, r' := Route("GET", [":id", ":id", "x"], h), Route("GET", [":id", "*"], h');
    var inner := RepeatedTree(h, h').children[0].children[1];
    FirstRepeatedRoute(h, inner);
    var outer := Tree("id", true, false, [inner], map[]);
    assert Insert(NewNode("*", false), [], "GET", h') == Tree("*", false, true, [], map["GET" := h']);
    assert Insert(outer, ["*"], "GET", h') == RepeatedTree(h, h').children[0];
    assert [r, r'][..1] == [r];
  }

  function RepeatedTree(h: Handler, h': Handler): Tree {
    var inner := Tree("id", true, false, [Tree("x", false, false, [], map["GET" := h])], map[]);
    var wild := Tree("*", false, true, [], map["GET" := h']);
    Tree("", false, false, [Tree("id", true, false, [wild, inner], map[])], map[])
  }

  lemma {:induction false} InnerDeadEnd(inner: Tree, h: Handler)
    requires inner == Tree("id", true, false, [Tree("x", false, false, [], map["GET" := h])], map[])
    ensures ParamPass([inner], ["b", "c"], "GET", map["id" := "a"]) == Found(None, map[])
  {
    var ps: Params := map["id" := "b"];
    assert StaticPass(inner.children, ["c"], "GET", ps) == Found(None, ps);
    assert inner.children[1..] == [];
    assert ParamPass(inner.children, ["c"], "GET", ps) == Found(None, ps);
    assert WildcardPass(inner.children, ["c"], "GET", ps) == Found(None, ps);
    assert Find(inner, ["c"], "GET", ps) == Found(None, ps);
    assert ps - {"id"} == map[] && map["id" := "a"]["id" := "b"] == ps;
  }

  /** Why the names must differ: with ":id/:id/x" and a wildcard after ":id", the dead
      end below the inner parameter deletes the outer entry of the same name. */
  lemma {:induction false} RepeatedNameIsLost(h: Handler, h': Handler)
    ensures Lookup([Route("GET", [":id", ":id", "x"], h), Route("GET", [":id", "*"], h')],
                   ["a", "b", "c"], "GET") == Found(Some(h'), map["*" := Join(["b", "c"])])
  {
    RepeatedNameTree(h, h');
    var outer := RepeatedTree(h, h').children[0];
    var wild, inner := outer.children[0], outer.children[1];
    InnerDeadEnd(inner, h);
    assert outer.children[1..] == [inner];
    assert ParamPass(outer.children, ["b", "c"], "GET", map["id" := "a"]) == Found(None, map[]);
    assert Find(outer, ["b", "c"], "GET", map["id" := "a"]) == Found(Some(h'), map["*" := Join(["b", "c"])]);
  }
}
