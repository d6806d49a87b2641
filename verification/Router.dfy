/** The router as linked nodes that insert and search change in place
    (server/internal/router/node.go, router.go).  Every method is proved against
    the value functions of module Trie. */
module Router {
  import opened Lex
  import opened Paths
  import opened RouteTable
  import opened Wrappers
  import opened Trie

  lemma {:induction false} InsertAtTarget(t: Tree, segments: seq<string>, index: nat, m: string, h: Handler, k: nat)
    requires index < |segments| && k < |t.children|
    requires Takes(t.children[k], IsParam(segments[index]), NameOf(segments[index]))
    requires forall j :: 0 <= j < k ==> !Takes(t.children[j], IsParam(segments[index]), NameOf(segments[index]))
    ensures var isParam, name, c := IsParam(segments[index]), NameOf(segments[index]), t.children[k];
      Trie.Insert(t, segments[index..], m, h) == t.(children := t.children[k :=
        if isParam || c.part == name then Trie.Insert(c, segments[index + 1..], m, h)
        else SplitChild(c, name, segments[index + 1..], m, h)])
  {
    assert segments[index..][0] == segments[index] && segments[index..][1..] == segments[index + 1..];
    assert Target(t.children, IsParam(segments[index]), NameOf(segments[index])) == k;
  }

  lemma {:induction false} InsertNew(t: Tree, segments: seq<string>, index: nat, m: string, h: Handler)
    requires index < |segments|
    requires forall j :: 0 <= j < |t.children| ==>
      !Takes(t.children[j], IsParam(segments[index]), NameOf(segments[index]))
    ensures var isParam, name := IsParam(segments[index]), NameOf(segments[index]);
      var at := Place(t.children, isParam, name);
      Trie.Insert(t, segments[index..], m, h) == t.(children := t.children[..at] +
        [Trie.Insert(NewNode(name, isParam), segments[index + 1..], m, h)] + t.children[at..])
  {
    assert segments[index..][0] == segments[index] && segments[index..][1..] == segments[index + 1..];
    assert Target(t.children, IsParam(segments[index]), NameOf(segments[index])) == |t.children|;
  }

  lemma {:induction false} ReplaceNew(cs: seq<Tree>, at: nat, x: Tree, y: Tree)
    requires at <= |cs|
    ensures (cs[..at] + [x] + cs[at..])[at := y] == cs[..at] + [y] + cs[at..]
  {
  }

  class Node {
    var part: string
    const isParam: bool
    const isWildcard: bool
    var children: seq<Node>
    var handlers: HandlerMap
    /** The nodes of this subtree, and the subtree as a value. */
    ghost var Repr: set<Node>
    ghost var Model: Tree

    ghost predicate Valid()
      reads this, Repr
      decreases Repr
    {
      && this in Repr
      && Model == Tree(part, isParam, isWildcard, Model.children, handlers)
      && |Model.children| == |children|
      && (forall i :: 0 <= i < |children| ==>
            && children[i] in Repr && children[i].Repr <= Repr && this !in children[i].Repr
            && children[i].Valid() && children[i].Model == Model.children[i])
      && (forall i, j :: 0 <= i < j < |children| ==> children[i].Repr !! children[j].Repr)
    }

    constructor (part: string, isParam: bool, isWildcard: bool)
      ensures Valid() && Repr == {this} && fresh(this)
      ensures Model == Tree(part, isParam, isWildcard, [], map[])
    {
      this.part, this.isParam, this.isWildcard := part, isParam, isWildcard;
      children, handlers := [], map[];
      Repr, Model := {this}, Tree(part, isParam, isWildcard, [], map[]);
    }

    /** Shifts the later children up by one to make room. */
    method InsertChildNode(child: Node) returns (ghost at: nat)
      requires Valid() && child.Valid() && Repr !! child.Repr
      modifies this
      ensures Valid() && Repr == old(Repr) + child.Repr
      ensures at == Place(old(Model).children, child.isParam, child.Model.part)
      ensures children == old(children)[..at] + [child] + old(children)[at..]
      ensures Model == old(Model).(children := old(Model).children[..at] + [child.Model] + old(Model).children[at..])
    {
      var i := 0;
      while i < |children| && !(!child.isParam && (children[i].isParam || Less(child.part, children[i].part)))
        invariant i <= |children|
        invariant forall j :: 0 <= j < i ==> !GoesBefore(child.isParam, child.part, Model.children[j])
      {
        i := i + 1;
      }
      at := i;
      InsertAt(i, child);
    }

    /** Appends a place, moves the children from `at` on up by one, last first, and puts
        the child in. */
    method InsertAt(at: nat, child: Node)
      requires Valid() && child.Valid() && Repr !! child.Repr && at <= |children|
      modifies this`children, this`Repr, this`Model
      ensures Valid() && Repr == old(Repr) + child.Repr
      ensures children == old(children)[..at] + [child] + old(children)[at..]
      ensures Model == old(Model).(children := old(Model).children[..at] + [child.Model] + old(Model).children[at..])
    {
      ghost var was, models := children, Model.children;
      ShiftUp(at, child);
      Model := Model.(children := models[..at] + [child.Model] + models[at..]);
      Repr := Repr + child.Repr;
      forall i | 0 <= i < |children|
        ensures children[i] in Repr && children[i].Repr <= Repr && this !in children[i].Repr
        ensures children[i].Valid() && children[i].Model == Model.children[i]
      {
        assert children[i] == if i < at then was[i] else if i == at then child else was[i - 1];
        assert Model.children[i] == if i < at then models[i] else if i == at then child.Model else models[i - 1];
      }
      StayDisjoint(was, at, child);
    }

    static lemma {:induction false} StayDisjoint(was: seq<Node>, at: nat, child: Node)
      requires at <= |was| && forall i, j :: 0 <= i < j < |was| ==> was[i].Repr !! was[j].Repr
      requires forall i :: 0 <= i < |was| ==> was[i].Repr !! child.Repr
      ensures var now := was[..at] + [child] + was[at..];
        forall i, j :: 0 <= i < j < |now| ==> now[i].Repr !! now[j].Repr
    {
      var now := was[..at] + [child] + was[at..];
      forall i, j | 0 <= i < j < |now| ensures now[i].Repr !! now[j].Repr {
        assert now[i] == if i < at then was[i] else if i == at then child else was[i - 1];
        assert now[j] == if j < at then was[j] else if j == at then child else was[j - 1];
      }
    }

    method ShiftUp(at: nat, child: Node)
      requires at <= |children|
      modifies this`children
      ensures children == old(children)[..at] + [child] + old(children)[at..]
    {
      ghost var was := children;
      children := children + [child];
      var j := |children| - 1;
      while j > at
        invariant at <= j < |children| == |was| + 1
        invariant forall i :: 0 <= i < j ==> children[i] == was[i]
        invariant forall i :: j < i < |children| ==> children[i] == was[i - 1]
      {
        children := children[j := children[j - 1]];
        j := j - 1;
      }
      children := children[at := child];
    }

    /** Adds a route below this node. */
    method Insert(segments: seq<string>, m: string, h: Handler, index: nat)
      requires Valid() && index <= |segments|
      modifies Repr
      ensures Valid() && fresh(Repr - old(Repr)) && old(Repr) <= Repr
      ensures Model == Trie.Insert(old(Model), segments[index..], m, h)
      decreases |segments| - index, 3
    {
      if index >= |segments| {
        SetHandler(m, h);
        return;
      }
      var isParam, segment := IsParam(segments[index]), NameOf(segments[index]);
      for k := 0 to |children|
        invariant forall j :: 0 <= j < k ==> !Takes(Model.children[j], isParam, segment)
      {
        if children[k].isParam == isParam {
          if isParam || children[k].part == segment {
            InsertAtTarget(Model, segments, index, m, h, k);
            Descend(children[k], k, segments, m, h, index);
            return;
          }
          var i := 0;
          while i < |segment| && i < |children[k].part| && segment[i] == children[k].part[i]
            invariant i <= |segment| && i <= |children[k].part|
            invariant CommonPrefix(segment, children[k].part) ==
                      i + CommonPrefix(segment[i..], children[k].part[i..])
          {
            i := i + 1;
          }
          if i > 0 {
            InsertAtTarget(Model, segments, index, m, h, k);
            Split(k, segment, segments, m, h, index);
            return;
          }
        }
      }
      InsertNew(Model, segments, index, m, h);
      Add(segments, m, h, index);
    }

    method SetHandler(m: string, h: Handler)
      requires Valid()
      modifies this`handlers, this`Model
      ensures Valid() && Model == old(Model).(handlers := old(Model).handlers[m := h])
    {
      handlers := handlers[m := h];
      Model := Model.(handlers := handlers);
    }

    method Descend(child: Node, ghost k: nat, segments: seq<string>, m: string, h: Handler, index: nat)
      requires Valid() && index < |segments| && k < |children| && child == children[k]
      modifies child.Repr, this`Repr, this`Model
      ensures Valid() && fresh(Repr - old(Repr)) && old(Repr) <= Repr
      ensures Model == old(Model).(children := old(Model).children[k :=
                         Trie.Insert(old(Model).children[k], segments[index + 1..], m, h)])
      decreases |segments| - index, 1
    {
      child.Insert(segments, m, h, index + 1);
      Repr := Repr + child.Repr;
      Model := Model.(children := Model.children[k := child.Model]);
    }

    method Add(segments: seq<string>, m: string, h: Handler, index: nat)
      requires Valid() && index < |segments|
      modifies Repr
      ensures Valid() && fresh(Repr - old(Repr)) && old(Repr) <= Repr
      ensures var isParam, name := IsParam(segments[index]), NameOf(segments[index]);
        var at := Place(old(Model).children, isParam, name);
        Model == old(Model).(children := old(Model).children[..at] +
          [Trie.Insert(NewNode(name, isParam), segments[index + 1..], m, h)] + old(Model).children[at..])
      decreases |segments| - index, 2
    {
      var isParam, segment := IsParam(segments[index]), NameOf(segments[index]);
      var newNode := new Node(segment, isParam, segment == "*");
      ghost var cs := Model.children;
      ghost var at := InsertChildNode(newNode);
      Descend(newNode, at, segments, m, h, index);
      ReplaceNew(cs, at, NewNode(segment, isParam), newNode.Model);
    }

    /** Puts a node for the common prefix above child k. */
    method Split(k: nat, segment: string, segments: seq<string>, m: string, h: Handler, index: nat)
      requires Valid() && index < |segments| && k < |children|
      modifies Repr
      ensures Valid() && fresh(Repr - old(Repr)) && old(Repr) <= Repr
      ensures Model == old(Model).(children := old(Model).children[k :=
                         SplitChild(old(Model).children[k], segment, segments[index + 1..], m, h)])
      decreases |segments| - index, 2
    {
      var above := MakeAbove(children[k], segment, segments, m, h, index);
      ReplaceChild(k, above);
    }

    /** Everything about this node but child k. */
    ghost predicate ValidBut(k: nat)
      reads this, Repr
    {
      && this in Repr && k < |children|
      && Model == Tree(part, isParam, isWildcard, Model.children, handlers)
      && |Model.children| == |children|
      && (forall i :: 0 <= i < |children| && i != k ==>
            && children[i] in Repr && children[i].Repr <= Repr && this !in children[i].Repr
            && children[i].Valid() && children[i].Model == Model.children[i])
      && (forall i, j :: 0 <= i < j < |children| && i != k && j != k ==> children[i].Repr !! children[j].Repr)
    }

    method ReplaceChild(k: nat, c: Node)
      requires ValidBut(k) && c.Valid() && this !in c.Repr
      requires forall i :: 0 <= i < |children| && i != k ==> children[i].Repr !! c.Repr
      modifies this`children, this`Repr, this`Model
      ensures Valid() && Repr == old(Repr) + c.Repr
      ensures Model == old(Model).(children := old(Model).children[k := c.Model])
    {
      children := children[k := c];
      Repr := Repr + c.Repr;
      Model := Model.(children := Model.children[k := c.Model]);
    }

    static method MakeAbove(child: Node, segment: string, segments: seq<string>, m: string, h: Handler, index: nat)
        returns (above: Node)
      requires child.Valid() && index < |segments|
      modifies child.Repr
      ensures above.Valid() && fresh(above.Repr - old(child.Repr)) && old(child.Repr) <= above.Repr
      ensures above.Model == SplitChild(old(child.Model), segment, segments[index + 1..], m, h)
      decreases |segments| - index, 1
    {
      var i := CommonPrefix(segment, child.part);
      above := PrefixNode(child, i);
      if i < |segment| {
        var newNode := RestNode(segment[i..], segments, m, h, index + 1);
        above.Append(newNode);
      } else {
        above.Insert(segments, m, h, index + 1);
      }
    }

    static method RestNode(part: string, segments: seq<string>, m: string, h: Handler, index: nat) returns (n: Node)
      requires index <= |segments|
      ensures n.Valid() && fresh(n.Repr)
      ensures n.Model == Trie.Insert(Tree(part, false, false, [], map[]), segments[index..], m, h)
      decreases |segments| - index, 4
    {
      n := new Node(part, false, false);
      n.Insert(segments, m, h, index);
    }

    static method PrefixNode(child: Node, i: nat) returns (above: Node)
      requires child.Valid() && i <= |child.part|
      modifies child`part, child`Model
      ensures above.Valid() && fresh(above) && above.Repr == {above} + old(child.Repr)
      ensures above.Model == Tree(old(child.part)[..i], false, false,
                                  [old(child.Model).(part := old(child.part)[i..])], map[])
    {
      above := new Node(child.part[..i], false, false);
      child.CutPart(i);
      above.Append(child);
    }

    method CutPart(i: nat)
      requires Valid() && i <= |part|
      modifies this`part, this`Model
      ensures Valid() && Model == old(Model).(part := old(part)[i..])
    {
      part := part[i..];
      Model := Model.(part := part);
    }

    method Append(child: Node)
      requires Valid() && child.Valid() && Repr !! child.Repr
      modifies this`children, this`Repr, this`Model
      ensures Valid() && Repr == old(Repr) + child.Repr
      ensures Model == old(Model).(children := old(Model).children + [child.Model])
    {
      children := children + [child];
      Model := Model.(children := Model.children + [child.Model]);
      Repr := Repr + child.Repr;
    }
  }

  /** The Go map of parameters, shared by the whole search. */
  class ParamMap {
    var entries: Params
    constructor ()
      ensures entries == map[]
    {
      entries := map[];
    }
  }

  lemma {:induction false} TruncateCutsAt(segments: seq<string>, i: nat)
    requires i <= |segments| && forall j :: 0 <= j < i ==> segments[j] != "*"
    requires i < |segments| ==> segments[i] == "*"
    ensures Truncate(segments) == if i < |segments| then segments[..i + 1] else segments
  {
    if i > 0 {
      TruncateCutsAt(segments[1..], i - 1);
      assert segments == [segments[0]] + segments[1..];
      assert i < |segments| ==> segments[..i + 1] == [segments[0]] + segments[1..][..i];
    }
  }

  lemma {:induction false} BuildOneMore(routes: seq<Route>, r: Route)
    ensures Build(routes + [r]) == Trie.Insert(Build(routes), r.segments, r.method_, r.handler)
  {
    assert (routes + [r])[..|routes + [r]| - 1] == routes;
  }

  class Router {
    var root: Node
    /** The routes registered so far, in order. */
    ghost var routes: seq<Route>

    ghost predicate Valid()
      reads this, root, root.Repr
    {
      root.Valid() && root.Model == Build(routes)
    }

    constructor ()
      ensures Valid() && routes == [] && fresh(root.Repr)
    {
      root := new Node("", false, false);
      routes := [];
    }

    /** Registers a route; a path that does not begin with a slash is refused (a panic). */
    method Handle(m: string, path: string, h: Handler) returns (ok: bool)
      requires Valid()
      modifies this`routes, root.Repr
      ensures Valid() && root == old(root) && fresh(root.Repr - old(root.Repr))
      ensures ok <==> path != "" && path[0] == '/'
      ensures routes == if ok then old(routes) + [Route(m, Truncate(SplitPath(path)), h)] else old(routes)
    {
      if path == "" || path[0] != '/' {
        return false;
      }
      var segments := SplitPathInPlace(path);
      segments := CutAtWildcard(segments);
      root.Insert(segments, m, h, 0);
      assert segments[0..] == segments;
      BuildOneMore(routes, Route(m, segments, h));
      routes := routes + [Route(m, segments, h)];
      return true;
    }

    method CutAtWildcard(segments: seq<string>) returns (r: seq<string>)
      ensures r == Truncate(segments)
    {
      var i := 0;
      while i < |segments| && segments[i] != "*"
        invariant i <= |segments| && forall j :: 0 <= j < i ==> segments[j] != "*"
      {
        i := i + 1;
      }
      TruncateCutsAt(segments, i);
      return if i < |segments| then segments[..i + 1] else segments;
    }

    /** findHandler: three passes over the children, writing and deleting entries. */
    method FindHandler(segments: seq<string>, node: Node, m: string, params: ParamMap) returns (h: Option<Handler>)
      requires node.Valid()
      modifies params
      ensures Found(h, params.entries) == Find(node.Model, segments, m, old(params.entries))
      decreases |segments|, 1
    {
      if segments == [] {
        return HandlerFor(node.handlers, m);
      }
      h := TryStatic(segments, node, m, params);
      if h.Some? {
        return;
      }
      h := TryParam(segments, node, m, params);
      if h.Some? {
        return;
      }
      ghost var before := params.entries;
      for k := 0 to |node.children|
        invariant params.entries == before
        invariant WildcardPass(node.Model.children, segments, m, before) ==
                  WildcardPass(node.Model.children[k..], segments, m, before)
      {
        var child := node.children[k];
        if child.isWildcard && m in child.handlers {
          params.entries := params.entries["*" := Join(segments)];
          return Some(child.handlers[m]);
        }
      }
      return None;
    }

    method TryStatic(segments: seq<string>, node: Node, m: string, params: ParamMap) returns (h: Option<Handler>)
      requires node.Valid() && segments != []
      modifies params
      ensures Found(h, params.entries) == StaticPass(node.Model.children, segments, m, old(params.entries))
      decreases |segments|, 0
    {
      for k := 0 to |node.children|
        invariant StaticPass(node.Model.children, segments, m, old(params.entries)) ==
                  StaticPass(node.Model.children[k..], segments, m, params.entries)
      {
        var child := node.children[k];
        if child.isParam || child.isWildcard {
          return None;
        }
        if child.part == segments[0] {
          h := FindHandler(segments[1..], child, m, params);
          if h.Some? {
            return;
          }
        }
      }
      return None;
    }

    method TryParam(segments: seq<string>, node: Node, m: string, params: ParamMap) returns (h: Option<Handler>)
      requires node.Valid() && segments != []
      modifies params
      ensures Found(h, params.entries) == ParamPass(node.Model.children, segments, m, old(params.entries))
      decreases |segments|, 0
    {
      for k := 0 to |node.children|
        invariant ParamPass(node.Model.children, segments, m, old(params.entries)) ==
                  ParamPass(node.Model.children[k..], segments, m, params.entries)
      {
        var child := node.children[k];
        if child.isParam {
          params.entries := params.entries[child.part := segments[0]];
          h := FindHandler(segments[1..], child, m, params);
          if h.Some? {
            return;
          }
          params.entries := params.entries - {child.part};
        }
      }
      return None;
    }

    /** The routing half of ServeHTTP. */
    method Resolve(path: string, m: string) returns (h: Option<Handler>, params: Params)
      requires Valid()
      ensures Found(h, params) == Lookup(routes, SplitPath(path), m)
    {
      var segments := SplitPathInPlace(path);
      var shared := new ParamMap();
      h := FindHandler(segments, root, m, shared);
      params := shared.entries;
    }
  }
}
