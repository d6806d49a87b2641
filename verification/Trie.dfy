/** The router's tree as a value: insert with its prefix split, the backtracking
    search that writes a params map, and the proof that under the three limits of
    `GoodTable` the two implement the flat table
    (server/internal/router/node.go, router.go). */
module Trie {
  import opened Lex
  import opened Paths
  import opened RouteTable
  import opened Wrappers

  type HandlerMap = map<string, Handler>
  type Params = map<string, string>

  datatype Tree = Tree(part: string, isParam: bool, isWildcard: bool, children: seq<Tree>, handlers: HandlerMap)

  const EmptyTree := Tree("", false, false, [], map[])

  // --------------------------------------------------------------- insertion

  /** insertChildNode: the index at which a new child goes in. */
  function Place(cs: seq<Tree>, isParam: bool, part: string): (k: nat)
    ensures k <= |cs|
    ensures forall j :: 0 <= j < k ==> !GoesBefore(isParam, part, cs[j])
    ensures k < |cs| ==> GoesBefore(isParam, part, cs[k])
  {
    if cs == [] || GoesBefore(isParam, part, cs[0]) then 0 else 1 + Place(cs[1..], isParam, part)
  }

  predicate GoesBefore(isParam: bool, part: string, c: Tree) {
    !isParam && (c.isParam || Less(part, c.part))
  }

  function CommonPrefix(a: string, b: string): (n: nat)
    ensures n <= |a| && n <= |b|
    ensures n > 0 <==> a != "" && b != "" && a[0] == b[0]
  {
    if a == "" || b == "" || a[0] != b[0] then 0 else 1 + CommonPrefix(a[1..], b[1..])
  }

  /** Does insert stop at this child, to descend into it or to split it? */
  predicate Takes(c: Tree, isParam: bool, name: string) {
    c.isParam == isParam && (isParam || c.part == name || CommonPrefix(name, c.part) > 0)
  }

  function Target(cs: seq<Tree>, isParam: bool, name: string): (k: nat)
    ensures k <= |cs|
    ensures forall j :: 0 <= j < k ==> !Takes(cs[j], isParam, name)
    ensures k < |cs| ==> Takes(cs[k], isParam, name)
  {
    if cs == [] || Takes(cs[0], isParam, name) then 0 else 1 + Target(cs[1..], isParam, name)
  }

  function NewNode(name: string, isParam: bool): Tree {
    Tree(name, isParam, name == "*", [], map[])
  }

  function Insert(t: Tree, segments: seq<string>, m: string, h: Handler): Tree
    decreases |segments|, 0
  {
    if segments == [] then t.(handlers := t.handlers[m := h])
    else
      var isParam, name := IsParam(segments[0]), NameOf(segments[0]);
      var k := Target(t.children, isParam, name);
      if k == |t.children| then
        var child := Insert(NewNode(name, isParam), segments[1..], m, h);
        var at := Place(t.children, isParam, name);
        t.(children := t.children[..at] + [child] + t.children[at..])
      else if isParam || t.children[k].part == name then
        t.(children := t.children[k := Insert(t.children[k], segments[1..], m, h)])
      else
        t.(children := t.children[k := SplitChild(t.children[k], name, segments[1..], m, h)])
  }

  /** The common prefix becomes a node above the child; the rest of the new segment
      becomes its second child, or the prefix node itself takes the handler. */
  function SplitChild(c: Tree, name: string, rest: seq<string>, m: string, h: Handler): Tree
    decreases |rest|, 1
  {
    var i := CommonPrefix(name, c.part);
    var above := Tree(c.part[..i], false, false, [c.(part := c.part[i..])], map[]);
    if i < |name| then
      above.(children := above.children + [Insert(Tree(name[i..], false, false, [], map[]), rest, m, h)])
    else Insert(above, rest, m, h)
  }

  function Build(routes: seq<Route>): Tree {
    if routes == [] then EmptyTree
    else
      var r := routes[|routes| - 1];
      Insert(Build(routes[..|routes| - 1]), r.segments, r.method_, r.handler)
  }

  /** As far as both texts agree, and no further. */
  lemma {:induction false} CommonPrefixIsLongest(a: string, b: string)
    ensures var n := CommonPrefix(a, b);
      a[..n] == b[..n] && (n < |a| && n < |b| ==> a[n] != b[n])
  {
    if a != "" && b != "" && a[0] == b[0] {
      CommonPrefixIsLongest(a[1..], b[1..]);
      var n := CommonPrefix(a, b);
      assert a[..n] == [a[0]] + a[1..][..n - 1] && b[..n] == [b[0]] + b[1..][..n - 1];
    }
  }

  lemma {:induction false} LongestIsCommonPrefix(a: string, b: string, n: nat)
    requires n <= |a| && n <= |b| && a[..n] == b[..n]
    requires n < |a| && n < |b| ==> a[n] != b[n]
    ensures CommonPrefix(a, b) == n
  {
    if n > 0 {
      assert a[0] == a[..n][0] && b[0] == b[..n][0];
      assert a[1..][..n - 1] == a[..n][1..] && b[1..][..n - 1] == b[..n][1..];
      LongestIsCommonPrefix(a[1..], b[1..], n - 1);
    }
  }

  /** A split.  The node above has the common prefix; the old child is cut to the rest of
      its text; and the new segment, if it goes on, is a second child with its own rest,
      otherwise the node above is its place. */
  lemma {:induction false} SplitIs(c: Tree, name: string, rest: seq<string>, m: string, h: Handler, i: nat)
    requires i <= |name| && i <= |c.part| && name[..i] == c.part[..i]
    requires i < |name| && i < |c.part| ==> name[i] != c.part[i]
    ensures var above := Tree(c.part[..i], false, false, [c.(part := c.part[i..])], map[]);
      SplitChild(c, name, rest, m, h) ==
        if name == c.part[..i] then Insert(above, rest, m, h)
        else above.(children := [c.(part := c.part[i..]), Insert(Tree(name[i..], false, false, [], map[]), rest, m, h)])
  {
    LongestIsCommonPrefix(name, c.part, i);
    assert i == |name| <==> name == c.part[..i];
    assert [c.(part := c.part[i..])] + [Insert(Tree(name[i..], false, false, [], map[]), rest, m, h)] ==
           [c.(part := c.part[i..]), Insert(Tree(name[i..], false, false, [], map[]), rest, m, h)];
  }

  // ------------------------------------------------------------------ lookup

  datatype Found = Found(handler: Option<Handler>, params: Params)

  function HandlerFor(hs: HandlerMap, m: string): Option<Handler> {
    if m in hs then Some(hs[m]) else None
  }

  function Find(t: Tree, req: seq<string>, m: string, params: Params): Found
    decreases |req|, 1, 0
  {
    if req == [] then Found(HandlerFor(t.handlers, m), params)
    else
      var s := StaticPass(t.children, req, m, params);
      if s.handler.Some? then s
      else
        var p := ParamPass(t.children, req, m, s.params);
        if p.handler.Some? then p else WildcardPass(t.children, req, m, p.params)
  }

  function StaticPass(cs: seq<Tree>, req: seq<string>, m: string, params: Params): Found
    requires req != []
    decreases |req|, 0, |cs|
  {
    if cs == [] || cs[0].isParam || cs[0].isWildcard then Found(None, params)
    else if cs[0].part == req[0] then
      var r := Find(cs[0], req[1..], m, params);
      if r.handler.Some? then r else StaticPass(cs[1..], req, m, r.params)
    else StaticPass(cs[1..], req, m, params)
  }

  function ParamPass(cs: seq<Tree>, req: seq<string>, m: string, params: Params): Found
    requires req != []
    decreases |req|, 0, |cs|
  {
    if cs == [] then Found(None, params)
    else if cs[0].isParam then
      var r := Find(cs[0], req[1..], m, params[cs[0].part := req[0]]);
      if r.handler.Some? then r else ParamPass(cs[1..], req, m, r.params - {cs[0].part})
    else ParamPass(cs[1..], req, m, params)
  }

  function WildcardPass(cs: seq<Tree>, req: seq<string>, m: string, params: Params): Found
    decreases |req|, 0, |cs|
  {
    if cs == [] then Found(None, params)
    else if cs[0].isWildcard && m in cs[0].handlers then
      Found(Some(cs[0].handlers[m]), params["*" := Join(req)])
    else WildcardPass(cs[1..], req, m, params)
  }

  // ------------------------------------------------------- the tree invariant

  function Kind(c: Tree): Seg {
    if c.isParam then Par else if c.isWildcard then Any else Lit(c.part)
  }

  /** The order of the children array: static texts in byte order, each with its own
      first byte, then the wildcard, then the parameter; at most one of each. */
  predicate KindBefore(s: Seg, t: Seg) {
    match (s, t)
    case (Lit(a), Lit(b)) => a != "" && b != "" && a[0] != b[0] && Less(a, b)
    case (Lit(a), Any) => a != "" && a[0] < '*'
    case (Lit(a), Par) => a != ""
    case (Any, Par) => true
    case _ => false
  }

  predicate Ordered(cs: seq<Tree>) {
    forall i, j :: 0 <= i < j < |cs| ==> KindBefore(Kind(cs[i]), Kind(cs[j]))
  }

  predicate NodeOk(c: Tree) {
    && (c.isParam ==> !c.isWildcard)
    && (c.isWildcard ==> c.part == "*" && c.children == [])
    && (Kind(c).Lit? ==> c.part != "" && c.part != "*")
  }

  predicate WF(t: Tree) {
    Ordered(t.children) && forall c :: c in t.children ==> NodeOk(c) && WF(c)
  }

  /** The child of this kind: under the invariant there is at most one. */
  function ChildAt(cs: seq<Tree>, s: Seg): (k: nat)
    ensures k <= |cs|
    ensures forall j :: 0 <= j < k ==> Kind(cs[j]) != s
    ensures k < |cs| ==> Kind(cs[k]) == s
  {
    if cs == [] || Kind(cs[0]) == s then 0 else 1 + ChildAt(cs[1..], s)
  }

  function NodeAt(t: Tree, p: Pattern): Option<Tree>
    decreases |p|
  {
    if p == [] then Some(t)
    else
      var k := ChildAt(t.children, p[0]);
      if k < |t.children| then NodeAt(t.children[k], p[1..]) else None
  }

  function HandlerAt(t: Tree, p: Pattern, m: string): Option<Handler> {
    var n := NodeAt(t, p);
    if n.Some? then HandlerFor(n.value.handlers, m) else None
  }

  function PartAt(t: Tree, p: Pattern): Option<string> {
    var n := NodeAt(t, p);
    if n.Some? then Some(n.value.part) else None
  }

  lemma {:induction false} ChildIsUnique(cs: seq<Tree>, k: nat)
    requires Ordered(cs) && k < |cs|
    ensures ChildAt(cs, Kind(cs[k])) == k
  {
    var j := ChildAt(cs, Kind(cs[k]));
    assert j < k ==> KindBefore(Kind(cs[j]), Kind(cs[k]));
    LessIsStrict(cs[k].part, cs[k].part);
  }

  lemma {:induction false} NodeAtAppend(t: Tree, p: Pattern, s: Seg)
    requires NodeAt(t, p).Some?
    ensures var n := NodeAt(t, p).value; var k := ChildAt(n.children, s);
      NodeAt(t, p + [s]) == if k < |n.children| then Some(n.children[k]) else None
    decreases |p|
  {
    if p == [] {
      assert p + [s] == [s];
    } else {
      assert (p + [s])[1..] == p[1..] + [s];
      NodeAtAppend(t.children[ChildAt(t.children, p[0])], p[1..], s);
    }
  }

  // ------------------------------------------------ what an insertion changes

  /** Every node of the tree lies on a path that is compatible with p. */
  ghost predicate Fits(t: Tree, p: Pattern) {
    forall q :: NodeAt(t, q).Some? ==> Compatible(q, p)
  }

  lemma {:induction false} FitsChildren(t: Tree, p: Pattern)
    requires WF(t) && Fits(t, p) && p != []
    ensures forall j :: 0 <= j < |t.children| ==> Kind(t.children[j]) == p[0] || Apart(Kind(t.children[j]), p[0])
    ensures forall j :: 0 <= j < |t.children| && Kind(t.children[j]) == p[0] ==> Fits(t.children[j], p[1..])
  {
    forall j | 0 <= j < |t.children|
      ensures Kind(t.children[j]) == p[0] || Apart(Kind(t.children[j]), p[0])
      ensures Kind(t.children[j]) == p[0] ==> Fits(t.children[j], p[1..])
    {
      var s := Kind(t.children[j]);
      ChildIsUnique(t.children, j);
      assert NodeAt(t, [s]).Some? by { assert [s][1..] == []; }
      assert Compatible([s], p);
      if s == p[0] {
        forall q | NodeAt(t.children[j], q).Some? ensures Compatible(q, p[1..]) {
          assert ([s] + q)[1..] == q;
          assert NodeAt(t, [s] + q).Some?;
        }
      }
    }
  }

  /** Under the limits insert never splits: it stops exactly at the child of its kind. */
  lemma {:induction false} TargetIsChild(cs: seq<Tree>, seg: string)
    requires forall c :: c in cs ==> NodeOk(c)
    requires seg != "" && seg != ":*"
    requires forall j :: 0 <= j < |cs| ==> Kind(cs[j]) == SegOf(seg) || Apart(Kind(cs[j]), SegOf(seg))
    ensures Target(cs, IsParam(seg), NameOf(seg)) == ChildAt(cs, SegOf(seg))
  {
    forall j | 0 <= j < |cs| ensures Takes(cs[j], IsParam(seg), NameOf(seg)) <==> Kind(cs[j]) == SegOf(seg) {
      assert cs[j] in cs;
    }
  }

  lemma {:induction false} NewChildPlaced(cs: seq<Tree>, c: Tree, j: nat)
    requires Ordered(cs) && NodeOk(c) && j < |cs| && forall d :: d in cs ==> NodeOk(d)
    requires forall i :: 0 <= i < |cs| ==> Kind(cs[i]) != Kind(c) && Apart(Kind(cs[i]), Kind(c))
    ensures if j < Place(cs, c.isParam, c.part) then KindBefore(Kind(cs[j]), Kind(c))
            else KindBefore(Kind(c), Kind(cs[j]))
  {
    var at := Place(cs, c.isParam, c.part);
    assert NodeOk(cs[j]);
    if j < at {
      LessIsTotal(cs[j].part, c.part);
    } else {
      assert NodeOk(cs[at]);
      if at < j {
        assert KindBefore(Kind(cs[at]), Kind(cs[j]));
        if Kind(cs[j]).Lit? {
          LessIsTransitive(c.part, cs[at].part, cs[j].part);
        }
      }
    }
  }

  lemma {:induction false} OrderedInsert(cs: seq<Tree>, c: Tree, at: nat)
    requires Ordered(cs) && at <= |cs|
    requires forall j :: 0 <= j < at ==> KindBefore(Kind(cs[j]), Kind(c))
    requires forall j :: at <= j < |cs| ==> KindBefore(Kind(c), Kind(cs[j]))
    ensures Ordered(cs[..at] + [c] + cs[at..])
  {
    var ds := cs[..at] + [c] + cs[at..];
    forall i, j | 0 <= i < j < |ds| ensures KindBefore(Kind(ds[i]), Kind(ds[j])) {
      assert ds[i] == if i < at then cs[i] else if i == at then c else cs[i - 1];
      assert ds[j] == if j < at then cs[j] else if j == at then c else cs[j - 1];
    }
  }

  lemma {:induction false} NewChildOrdered(cs: seq<Tree>, c: Tree)
    requires Ordered(cs) && NodeOk(c) && forall d :: d in cs ==> NodeOk(d)
    requires forall j :: 0 <= j < |cs| ==> Kind(cs[j]) != Kind(c) && Apart(Kind(cs[j]), Kind(c))
    ensures var at := Place(cs, c.isParam, c.part); Ordered(cs[..at] + [c] + cs[at..])
  {
    var at := Place(cs, c.isParam, c.part);
    forall j | 0 <= j < |cs|
      ensures if j < at then KindBefore(Kind(cs[j]), Kind(c)) else KindBefore(Kind(c), Kind(cs[j]))
    {
      NewChildPlaced(cs, c, j);
    }
    OrderedInsert(cs, c, at);
  }

  /** The child that takes a segment: the one there is, or a new one. */
  function ChildFor(t: Tree, seg: string): Tree {
    var k := ChildAt(t.children, SegOf(seg));
    if k < |t.children| then t.children[k] else NewNode(NameOf(seg), IsParam(seg))
  }

  ghost predicate CanInsert(t: Tree, segments: seq<string>) {
    WF(t) && WellFormed(segments) && Fits(t, PatternOf(segments))
  }

  lemma {:induction false} InsertChildren(t: Tree, segments: seq<string>, m: string, h: Handler)
    requires CanInsert(t, segments) && segments != []
    ensures var cs, seg := t.children, segments[0];
      var k, at := ChildAt(cs, SegOf(seg)), Place(cs, IsParam(seg), NameOf(seg));
      var child := Insert(ChildFor(t, seg), segments[1..], m, h);
      Insert(t, segments, m, h) ==
        t.(children := if k < |cs| then cs[k := child] else cs[..at] + [child] + cs[at..])
  {
    FitsChildren(t, PatternOf(segments));
    TargetIsChild(t.children, segments[0]);
    var k := ChildAt(t.children, SegOf(segments[0]));
    assert k < |t.children| ==> NodeOk(t.children[k]);
  }

  lemma {:induction false} ChildCanInsert(t: Tree, segments: seq<string>)
    requires CanInsert(t, segments) && segments != []
    ensures CanInsert(ChildFor(t, segments[0]), segments[1..])
    ensures Kind(ChildFor(t, segments[0])) == SegOf(segments[0])
    ensures NodeOk(ChildFor(t, segments[0]))
    ensures SegOf(segments[0]) == Any ==> segments[1..] == []
  {
    var c := ChildFor(t, segments[0]);
    assert PatternOf(segments)[1..] == PatternOf(segments[1..]);
    FitsChildren(t, PatternOf(segments));
    if ChildAt(t.children, SegOf(segments[0])) == |t.children| {
      forall q | NodeAt(c, q).Some? ensures Compatible(q, PatternOf(segments[1..])) {
        assert q == [];
      }
    } else {
      assert c in t.children;
    }
  }

  lemma {:induction false} ReplaceKeepsWF(t: Tree, k: nat, c: Tree)
    requires WF(t) && k < |t.children| && Kind(c) == Kind(t.children[k]) && NodeOk(c) && WF(c)
    ensures WF(t.(children := t.children[k := c]))
  {
    assert forall d :: d in t.children[k := c] ==> d in t.children || d == c;
  }

  lemma {:induction false} AddKeepsWF(t: Tree, at: nat, c: Tree)
    requires WF(t) && at <= |t.children| && NodeOk(c) && WF(c)
    requires Ordered(t.children[..at] + [c] + t.children[at..])
    ensures WF(t.(children := t.children[..at] + [c] + t.children[at..]))
  {
    assert forall d :: d in t.children[..at] + [c] + t.children[at..] ==> d in t.children || d == c;
  }

  lemma {:induction false} ReplacedChild(cs: seq<Tree>, k: nat, c: Tree, s: Seg)
    requires Ordered(cs) && k < |cs| && Kind(c) == Kind(cs[k])
    ensures var j := ChildAt(cs[k := c], s);
      j == ChildAt(cs, s) && (j < |cs| ==> cs[k := c][j] == if s == Kind(c) then c else cs[j])
  {
    var j := ChildAt(cs, s);
    ChildIsUnique(cs, k);
    assert Ordered(cs[k := c]);
    assert forall i :: 0 <= i < |cs| ==> Kind(cs[k := c][i]) == Kind(cs[i]);
    if j < |cs| {
      ChildIsUnique(cs[k := c], j);
    }
  }

  function ChildOf(cs: seq<Tree>, s: Seg): Option<Tree> {
    var k := ChildAt(cs, s);
    if k < |cs| then Some(cs[k]) else None
  }

  lemma {:induction false} ChildOfFront(cs: seq<Tree>, s: Seg)
    requires cs != []
    ensures ChildOf(cs, s) == if Kind(cs[0]) == s then Some(cs[0]) else ChildOf(cs[1..], s)
  {
  }

  lemma {:induction false} ChildOfConcat(a: seq<Tree>, b: seq<Tree>, s: Seg)
    ensures ChildOf(a + b, s) == if ChildOf(a, s).Some? then ChildOf(a, s) else ChildOf(b, s)
  {
    if a == [] {
      assert a + b == b;
    } else {
      assert (a + b)[0] == a[0] && (a + b)[1..] == a[1..] + b;
      ChildOfFront(a, s);
      ChildOfFront(a + b, s);
      ChildOfConcat(a[1..], b, s);
    }
  }

  lemma {:induction false} AddedChild(cs: seq<Tree>, at: nat, c: Tree, s: Seg)
    requires at <= |cs| && ChildOf(cs, Kind(c)).None?
    ensures ChildOf(cs[..at] + [c] + cs[at..], s) == if s == Kind(c) then Some(c) else ChildOf(cs, s)
  {
    assert cs == cs[..at] + cs[at..];
    ChildOfConcat(cs[..at], cs[at..], s);
    ChildOfConcat(cs[..at] + [c], cs[at..], s);
    ChildOfConcat(cs[..at], [c], s);
  }

  /** Insertion leaves the node itself alone, except for its children and handlers,
      and keeps the invariant. */
  lemma {:induction false} InsertKeepsWF(t: Tree, segments: seq<string>, m: string, h: Handler)
    requires CanInsert(t, segments)
    ensures WF(Insert(t, segments, m, h))
    ensures var t' := Insert(t, segments, m, h);
      t'.part == t.part && t'.isParam == t.isParam && t'.isWildcard == t.isWildcard
    ensures segments == [] ==> Insert(t, segments, m, h).children == t.children
    decreases |segments|
  {
    if segments != [] {
      var cs, seg := t.children, segments[0];
      InsertChildren(t, segments, m, h);
      ChildCanInsert(t, segments);
      InsertKeepsWF(ChildFor(t, seg), segments[1..], m, h);
      var child := Insert(ChildFor(t, seg), segments[1..], m, h);
      var k := ChildAt(cs, SegOf(seg));
      if k < |cs| {
        ReplaceKeepsWF(t, k, child);
      } else {
        FitsChildren(t, PatternOf(segments));
        NewChildOrdered(cs, child);
        AddKeepsWF(t, Place(cs, IsParam(seg), NameOf(seg)), child);
      }
    }
  }

  /** Seen from above, an insertion replaces or adds the child of one kind. */
  lemma {:induction false} NodesAfterInsert(t: Tree, segments: seq<string>, m: string, h: Handler, q: Pattern)
    requires CanInsert(t, segments) && segments != [] && q != []
    ensures NodeAt(Insert(t, segments, m, h), q) ==
            if q[0] == SegOf(segments[0]) then NodeAt(Insert(ChildFor(t, segments[0]), segments[1..], m, h), q[1..])
            else NodeAt(t, q)
  {
    var cs, seg := t.children, segments[0];
    InsertChildren(t, segments, m, h);
    ChildCanInsert(t, segments);
    InsertKeepsWF(ChildFor(t, seg), segments[1..], m, h);
    InsertKeepsWF(t, segments, m, h);
    var child := Insert(ChildFor(t, seg), segments[1..], m, h);
    var k := ChildAt(cs, SegOf(seg));
    if k < |cs| {
      ReplacedChild(cs, k, child, q[0]);
    } else {
      AddedChild(cs, Place(cs, IsParam(seg), NameOf(seg)), child, q[0]);
    }
  }

  lemma {:induction false} HandlerEffect(t: Tree, segments: seq<string>, m: string, h: Handler, q: Pattern, m': string)
    requires CanInsert(t, segments)
    ensures HandlerAt(Insert(t, segments, m, h), q, m') ==
            if q == PatternOf(segments) && m' == m then Some(h) else HandlerAt(t, q, m')
    decreases |segments|
  {
    if segments != [] && q != [] {
      NodesAfterInsert(t, segments, m, h, q);
      PatternSteps(segments, q);
      if q[0] == SegOf(segments[0]) {
        ChildCanInsert(t, segments);
        HandlerEffect(ChildFor(t, segments[0]), segments[1..], m, h, q[1..], m');
      }
    }
  }

  lemma {:induction false} PartEffect(t: Tree, segments: seq<string>, m: string, h: Handler, q: Pattern)
    requires CanInsert(t, segments)
    ensures PartAt(Insert(t, segments, m, h), q) ==
            if PartAt(t, q).Some? then PartAt(t, q)
            else if q <= PatternOf(segments) && q != [] then Some(NameOf(segments[|q| - 1])) else None
    decreases |segments|
  {
    if segments != [] && q != [] {
      NodesAfterInsert(t, segments, m, h, q);
      PatternSteps(segments, q);
      if q[0] == SegOf(segments[0]) {
        ChildCanInsert(t, segments);
        PartEffect(ChildFor(t, segments[0]), segments[1..], m, h, q[1..]);
      }
    }
  }

  /** The effect of an insertion on every place of the tree: one handler changes,
      and only missing nodes of the new path appear, named after its segments. */
  lemma {:induction false} InsertEffect(t: Tree, segments: seq<string>, m: string, h: Handler, q: Pattern, m': string)
    requires CanInsert(t, segments)
    ensures HandlerAt(Insert(t, segments, m, h), q, m') ==
            if q == PatternOf(segments) && m' == m then Some(h) else HandlerAt(t, q, m')
    ensures PartAt(Insert(t, segments, m, h), q) ==
            if PartAt(t, q).Some? then PartAt(t, q)
            else if q <= PatternOf(segments) && q != [] then Some(NameOf(segments[|q| - 1])) else None
  {
    HandlerEffect(t, segments, m, h, q, m');
    PartEffect(t, segments, m, h, q);
  }

  lemma {:induction false} PatternSteps(segments: seq<string>, q: Pattern)
    requires segments != [] && q != []
    ensures q == PatternOf(segments) <==> q[0] == SegOf(segments[0]) && q[1..] == PatternOf(segments[1..])
    ensures q <= PatternOf(segments) <==> q[0] == SegOf(segments[0]) && q[1..] <= PatternOf(segments[1..])
  {
    var p := PatternOf(segments);
    assert q == [q[0]] + q[1..] && p == [p[0]] + p[1..] && p[1..] == PatternOf(segments[1..]);
  }

  // -------------------------------------------------- what a table builds

  /** The handler of the latest route with this pattern and method. */
  function Latest(routes: seq<Route>, p: Pattern, m: string): Option<Handler> {
    if routes == [] then None
    else
      var r := routes[|routes| - 1];
      if r.Shape() == p && r.method_ == m then Some(r.handler) else Latest(routes[..|routes| - 1], p, m)
  }

  /** The name of a node: the first route through it names it. */
  function FirstName(routes: seq<Route>, p: Pattern): Option<string> {
    if p == [] then Some("")
    else if routes == [] then None
    else
      var earlier := FirstName(routes[..|routes| - 1], p);
      var r := routes[|routes| - 1];
      if earlier.Some? then earlier
      else if p <= r.Shape() then Some(NameOf(r.segments[|p| - 1])) else None
  }

  predicate Names(r: Route, p: Pattern, name: string) {
    p != [] && p <= r.Shape() && NameOf(r.segments[|p| - 1]) == name
  }

  lemma {:induction false} FirstNameIsFromARoute(routes: seq<Route>, p: Pattern)
    requires p != [] && FirstName(routes, p).Some?
    ensures exists k :: 0 <= k < |routes| && Names(routes[k], p, FirstName(routes, p).value)
  {
    var n := |routes| - 1;
    if FirstName(routes[..n], p).Some? {
      FirstNameIsFromARoute(routes[..n], p);
      var k :| 0 <= k < n && Names(routes[..n][k], p, FirstName(routes[..n], p).value);
      assert Names(routes[k], p, FirstName(routes, p).value);
    } else {
      assert Names(routes[n], p, FirstName(routes, p).value);
    }
  }

  lemma {:induction false} PrefixCompatible(q: Pattern, r: Pattern, p: Pattern)
    requires q <= r && Compatible(r, p)
    ensures Compatible(q, p)
  {
    if q != [] && p != [] && q[0] == p[0] {
      PrefixCompatible(q[1..], r[1..], p[1..]);
    }
  }

  lemma {:induction false} GoodTablePrefix(routes: seq<Route>)
    requires GoodTable(routes) && routes != []
    ensures GoodTable(routes[..|routes| - 1])
  {
    var rs := routes[..|routes| - 1];
    assert forall k :: 0 <= k < |rs| ==> rs[k] == routes[k];
  }

  lemma {:induction false} NamedPlaceCompatible(routes: seq<Route>, p: Pattern)
    requires GoodTable(routes) && routes != [] && p != []
    requires FirstName(routes[..|routes| - 1], p).Some?
    ensures Compatible(p, routes[|routes| - 1].Shape())
  {
    var n := |routes| - 1;
    FirstNameIsFromARoute(routes[..n], p);
    var k :| 0 <= k < n && Names(routes[..n][k], p, FirstName(routes[..n], p).value);
    PrefixCompatible(p, routes[k].Shape(), routes[n].Shape());
  }

  /** The tree of the earlier routes has only places compatible with the last route. */
  lemma {:induction false} EarlierPlacesFit(routes: seq<Route>)
    requires GoodTable(routes) && routes != []
    ensures Fits(Build(routes[..|routes| - 1]), routes[|routes| - 1].Shape())
    decreases |routes|, 0
  {
    var n := |routes| - 1;
    GoodTablePrefix(routes);
    var t, shape := Build(routes[..n]), routes[n].Shape();
    forall p | NodeAt(t, p).Some? ensures Compatible(p, shape) {
      if p != [] {
        BuildHolds(routes[..n], p, "");
        assert PartAt(t, p).Some?;
        NamedPlaceCompatible(routes, p);
      }
    }
  }

  /** After any registrations within the limits, each place of the tree holds what
      the flat table says: the latest handler, and the first name. */
  lemma {:induction false} BuildHolds(routes: seq<Route>, q: Pattern, m: string)
    requires GoodTable(routes)
    ensures WF(Build(routes))
    ensures HandlerAt(Build(routes), q, m) == Latest(routes, q, m)
    ensures PartAt(Build(routes), q) == FirstName(routes, q)
    decreases |routes|, 1
  {
    if routes != [] {
      var n := |routes| - 1;
      var r := routes[n];
      GoodTablePrefix(routes);
      BuildHolds(routes[..n], q, m);
      EarlierPlacesFit(routes);
      LastInsertion(Build(routes[..n]), r, q, m);
      BuildLast(routes);
    }
  }

  lemma {:induction false} BuildLast(routes: seq<Route>)
    requires routes != []
    ensures var r := routes[|routes| - 1];
      Build(routes) == Insert(Build(routes[..|routes| - 1]), r.segments, r.method_, r.handler)
  {
  }

  lemma {:induction false} LastInsertion(t: Tree, r: Route, q: Pattern, m: string)
    requires CanInsert(t, r.segments)
    ensures var t' := Insert(t, r.segments, r.method_, r.handler);
      && WF(t')
      && HandlerAt(t', q, m) == (if q == r.Shape() && m == r.method_ then Some(r.handler) else HandlerAt(t, q, m))
      && PartAt(t', q) == if PartAt(t, q).Some? then PartAt(t, q)
                          else if q <= r.Shape() && q != [] then Some(NameOf(r.segments[|q| - 1])) else None
  {
    InsertKeepsWF(t, r.segments, r.method_, r.handler);
    InsertEffect(t, r.segments, r.method_, r.handler, q, m);
  }

  // -------------------------------------------------- what the search finds

  lemma {:induction false} KindsDiffer(cs: seq<Tree>, j: nat)
    requires Ordered(cs) && 0 < j < |cs|
    ensures Kind(cs[j]) != Kind(cs[0])
    ensures Kind(cs[0]).Any? || Kind(cs[0]).Par? ==> !Kind(cs[j]).Lit?
  {
    assert KindBefore(Kind(cs[0]), Kind(cs[j]));
    LessIsStrict(cs[0].part, cs[0].part);
  }

  /** With ordered children each pass has one child to try. */
  lemma {:induction false} StaticPassTries(cs: seq<Tree>, req: seq<string>, m: string, params: Params)
    requires req != [] && Ordered(cs)
    ensures var k := ChildAt(cs, Lit(req[0]));
      StaticPass(cs, req, m, params) ==
        if k < |cs| then Find(cs[k], req[1..], m, params) else Found(None, params)
    decreases |cs|
  {
    if cs != [] {
      forall j | 0 < j < |cs|
        ensures Kind(cs[j]) != Kind(cs[0]) && (Kind(cs[0]).Any? || Kind(cs[0]).Par? ==> !Kind(cs[j]).Lit?) {
        KindsDiffer(cs, j);
      }
      StaticPassTries(cs[1..], req, m, params);
      StaticPassTries(cs[1..], req, m, Find(cs[0], req[1..], m, params).params);
    }
  }

  lemma {:induction false} ParamPassTries(cs: seq<Tree>, req: seq<string>, m: string, params: Params)
    requires req != [] && Ordered(cs)
    ensures var k := ChildAt(cs, Par);
      ParamPass(cs, req, m, params) ==
        if k == |cs| then Found(None, params)
        else
          var r := Find(cs[k], req[1..], m, params[cs[k].part := req[0]]);
          if r.handler.Some? then r else Found(None, r.params - {cs[k].part})
    decreases |cs|
  {
    if cs != [] {
      forall j | 0 < j < |cs| ensures Kind(cs[j]) != Kind(cs[0]) { KindsDiffer(cs, j); }
      var p := cs[0].part;
      ParamPassTries(cs[1..], req, m, params);
      ParamPassTries(cs[1..], req, m, Find(cs[0], req[1..], m, params[p := req[0]]).params - {p});
    }
  }

  lemma {:induction false} WildcardPassTries(cs: seq<Tree>, req: seq<string>, m: string, params: Params)
    requires Ordered(cs) && forall c :: c in cs ==> NodeOk(c)
    ensures var k := ChildAt(cs, Any);
      WildcardPass(cs, req, m, params) ==
        if k < |cs| && m in cs[k].handlers then Found(Some(cs[k].handlers[m]), params["*" := Join(req)])
        else Found(None, params)
    decreases |cs|
  {
    if cs != [] {
      forall j | 0 < j < |cs| ensures Kind(cs[j]) != Kind(cs[0]) { KindsDiffer(cs, j); }
      assert NodeOk(cs[0]);
      WildcardPassTries(cs[1..], req, m, params);
    }
  }

  /** The names and segments that a path through the tree binds. */
  function Bindings(t: Tree, p: Pattern, req: seq<string>): Params
    requires Matches(p, req) && NodeAt(t, p).Some?
    decreases |p|
  {
    if p == [] then map[]
    else
      var c := t.children[ChildAt(t.children, p[0])];
      match p[0]
      case Any => map["*" := Join(req)]
      case Par => map[c.part := req[0]] + Bindings(c, p[1..], req[1..])
      case Lit(_) => Bindings(c, p[1..], req[1..])
  }

  /** The pattern the search ends on: the child that succeeded, kind by kind. */
  function Chosen(t: Tree, req: seq<string>, m: string): Option<Pattern>
    decreases |req|
  {
    if req == [] then if m in t.handlers then Some([]) else None
    else
      var cs := t.children;
      var i, j, k := ChildAt(cs, Lit(req[0])), ChildAt(cs, Par), ChildAt(cs, Any);
      var s := if i < |cs| then Chosen(cs[i], req[1..], m) else None;
      var p := if j < |cs| then Chosen(cs[j], req[1..], m) else None;
      if s.Some? then Some([Lit(req[0])] + s.value)
      else if p.Some? then Some([Par] + p.value)
      else if k < |cs| && m in cs[k].handlers then Some([Any]) else None
  }

  lemma {:induction false} NodeBelow(t: Tree, s: Seg, p: Pattern)
    requires ChildAt(t.children, s) < |t.children|
    ensures NodeAt(t, [s] + p) == NodeAt(t.children[ChildAt(t.children, s)], p)
  {
    assert ([s] + p)[1..] == p;
  }

  lemma {:induction false} ChildrenWF(t: Tree)
    requires WF(t)
    ensures forall k :: 0 <= k < |t.children| ==> WF(t.children[k]) && NodeOk(t.children[k])
  {
    assert forall k :: 0 <= k < |t.children| ==> t.children[k] in t.children;
  }

  lemma {:induction false} ChosenMatches(t: Tree, req: seq<string>, m: string)
    requires WF(t) && Chosen(t, req, m).Some?
    ensures Matches(Chosen(t, req, m).value, req) && HandlerAt(t, Chosen(t, req, m).value, m).Some?
    decreases |req|
  {
    if req != [] {
      ChildrenWF(t);
      var cs, p := t.children, Chosen(t, req, m).value;
      NodeBelow(t, p[0], p[1..]);
      assert p == [p[0]] + p[1..];
      if p[0] != Any {
        ChosenMatches(cs[ChildAt(cs, p[0])], req[1..], m);
      }
    }
  }

  lemma {:induction false} LeafHasNoPaths(t: Tree, p: Pattern)
    requires t.children == []
    ensures NodeAt(t, p) == if p == [] then Some(t) else None
  {
  }

  /** The choice beats every other matching place that holds a handler:
      backtracking loses nothing. */
  lemma {:induction false} ChosenBeats(t: Tree, req: seq<string>, m: string, q: Pattern)
    requires WF(t) && Matches(q, req) && HandlerAt(t, q, m).Some?
    ensures Chosen(t, req, m).Some? && Beats(Chosen(t, req, m).value, q)
    decreases |req|
  {
    if req != [] {
      ChildrenWF(t);
      var cs := t.children;
      if q[0] != Any {
        ChosenBeats(cs[ChildAt(cs, q[0])], req[1..], m, q[1..]);
      } else {
        LeafHasNoPaths(cs[ChildAt(cs, Any)], q[1..]);
        assert m in cs[ChildAt(cs, Any)].handlers;
      }
    }
  }

  /** The backtracking search with its passes returns what stands at the choice. */
  lemma {:induction false} FindChooses(t: Tree, req: seq<string>, m: string, params: Params)
    requires WF(t)
    ensures Find(t, req, m, params).handler ==
            if Chosen(t, req, m).Some? then HandlerAt(t, Chosen(t, req, m).value, m) else None
    decreases |req|
  {
    if req != [] {
      ChildrenWF(t);
      var cs := t.children;
      var i, j, k := ChildAt(cs, Lit(req[0])), ChildAt(cs, Par), ChildAt(cs, Any);
      StaticPassTries(cs, req, m, params);
      var s := StaticPass(cs, req, m, params);
      ParamPassTries(cs, req, m, s.params);
      WildcardPassTries(cs, req, m, ParamPass(cs, req, m, s.params).params);
      if i < |cs| {
        FindChooses(cs[i], req[1..], m, params);
        if Chosen(cs[i], req[1..], m).Some? {
          ChosenMatches(cs[i], req[1..], m);
          NodeBelow(t, Lit(req[0]), Chosen(cs[i], req[1..], m).value);
        }
      }
      if j < |cs| {
        FindChooses(cs[j], req[1..], m, s.params[cs[j].part := req[0]]);
        if Chosen(cs[j], req[1..], m).Some? {
          ChosenMatches(cs[j], req[1..], m);
          NodeBelow(t, Par, Chosen(cs[j], req[1..], m).value);
        }
      }
      if k < |cs| {
        NodeBelow(t, Any, []);
        assert [Any] + [] == [Any];
      }
    }
  }

  // ------------------------------------------------------ the main theorem

  function Lookup(routes: seq<Route>, req: seq<string>, m: string): Found {
    Find(Build(routes), req, m, map[])
  }

  lemma {:induction false} LatestRoute(routes: seq<Route>, p: Pattern, m: string) returns (k: nat)
    ensures Latest(routes, p, m).Some? ==>
      && k < |routes| && routes[k].Shape() == p && routes[k].method_ == m
      && routes[k].handler == Latest(routes, p, m).value
      && forall j :: k < j < |routes| ==> !(routes[j].Shape() == p && routes[j].method_ == m)
    ensures Latest(routes, p, m).None? ==>
      forall j :: 0 <= j < |routes| ==> !(routes[j].Shape() == p && routes[j].method_ == m)
  {
    k := 0;
    if routes != [] {
      var n := |routes| - 1;
      if routes[n].Shape() == p && routes[n].method_ == m {
        k := n;
      } else {
        k := LatestRoute(routes[..n], p, m);
        assert forall j :: 0 <= j < n ==> routes[..n][j] == routes[j];
      }
    }
  }

  /** The trie refines the flat table: after any registrations within the limits, a
      request gets the handler of the one best route that serves it, and nothing
      exactly when no registered route does. */
  lemma {:induction false} LookupRefinesTable(routes: seq<Route>, req: seq<string>, m: string)
    requires GoodTable(routes)
    ensures forall h :: Lookup(routes, req, m).handler == Some(h) <==>
      exists k: nat :: IsBest(routes, k, req, m) && routes[k].handler == h
    ensures Lookup(routes, req, m).handler == None <==>
      forall k :: 0 <= k < |routes| ==> !Serves(routes[k], req, m)
  {
    var t, c := Build(routes), Chosen(Build(routes), req, m);
    BuildHolds(routes, [], m);
    FindChooses(t, req, m, map[]);
    forall j | 0 <= j < |routes| && Serves(routes[j], req, m)
      ensures c.Some? && Beats(c.value, routes[j].Shape())
    {
      BuildHolds(routes, routes[j].Shape(), m);
      var _ := LatestRoute(routes, routes[j].Shape(), m);
      ChosenBeats(t, req, m, routes[j].Shape());
    }
    if c.Some? {
      ChosenMatches(t, req, m);
      BuildHolds(routes, c.value, m);
      var k := LatestRoute(routes, c.value, m);
      assert IsBest(routes, k, req, m);
      forall j: nat | IsBest(routes, j, req, m) ensures j == k {
        BestIsUnique(routes, j, k, req, m);
      }
    }
  }

  /** A further route changes no lookup that it does not itself serve. */
  lemma {:induction false} OtherRoutesUndisturbed(routes: seq<Route>, r: Route, req: seq<string>, m: string)
    requires GoodTable(routes + [r]) && !Serves(r, req, m)
    ensures Lookup(routes + [r], req, m).handler == Lookup(routes, req, m).handler
  {
    var more := routes + [r];
    assert more[..|more| - 1] == routes;
    GoodTablePrefix(more);
    LookupRefinesTable(routes, req, m);
    LookupRefinesTable(more, req, m);
    assert forall j :: 0 <= j < |routes| ==> more[j] == routes[j];
    if Lookup(routes, req, m).handler.Some? {
      var h := Lookup(routes, req, m).handler.value;
      var k: nat :| IsBest(routes, k, req, m) && routes[k].handler == h;
      assert IsBest(more, k, req, m);
    } else {
      assert forall k :: 0 <= k < |more| ==> !Serves(more[k], req, m);
    }
  }
}
