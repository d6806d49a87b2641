/** Ranking words by a score, best first, ties in alphabetical order: the
    comparison that every sort in server/internal/game/hints.go uses. */
module Ranking {
  import opened Lex

  type Scorer = string -> int

  predicate Before(f: Scorer, v: string, w: string) {
    f(v) > f(w) || (f(v) == f(w) && Less(v, w))
  }

  predicate Ranked(s: seq<string>, f: Scorer) {
    forall i, j :: 0 <= i < j < |s| ==> !Before(f, s[j], s[i])
  }

  /** w goes after the last word that it does not precede. */
  function Insert(s: seq<string>, w: string, f: Scorer): (r: seq<string>)
    ensures |r| == |s| + 1
  {
    if s == [] then [w]
    else
      var n := |s| - 1;
      if Before(f, w, s[n]) then Insert(s[..n], w, f) + [s[n]] else s + [w]
  }

  function SortBy(s: seq<string>, f: Scorer): (r: seq<string>)
    ensures |r| == |s|
  {
    if s == [] then [] else Insert(SortBy(s[..|s| - 1], f), s[|s| - 1], f)
  }

  lemma {:induction false} InsertKeeps(s: seq<string>, w: string, f: Scorer)
    ensures multiset(Insert(s, w, f)) == multiset(s) + multiset{w}
  {
    if s != [] {
      InsertKeeps(s[..|s| - 1], w, f);
      assert s == s[..|s| - 1] + [s[|s| - 1]];
    }
  }

  lemma {:induction false} InsertAmong(s: seq<string>, w: string, f: Scorer)
    ensures forall v :: v in Insert(s, w, f) ==> v == w || v in s
  {
    if s != [] {
      InsertAmong(s[..|s| - 1], w, f);
      assert forall v :: v in s[..|s| - 1] ==> v in s;
    }
  }

  lemma {:induction false} RankedAppend(t: seq<string>, w: string, f: Scorer)
    requires Ranked(t, f) && forall i :: 0 <= i < |t| ==> !Before(f, w, t[i])
    ensures Ranked(t + [w], f)
  {
  }

  lemma {:induction false} InsertRanks(s: seq<string>, w: string, f: Scorer)
    requires Ranked(s, f)
    ensures Ranked(Insert(s, w, f), f)
  {
    if s != [] {
      var n := |s| - 1;
      if Before(f, w, s[n]) {
        var t := Insert(s[..n], w, f);
        InsertRanks(s[..n], w, f);
        InsertAmong(s[..n], w, f);
        assert forall i :: 0 <= i < |t| ==> t[i] in t;
        LessIsStrict(w, s[n]);
        RankedAppend(t, s[n], f);
      } else {
        forall i | 0 <= i < |s| ensures !Before(f, w, s[i]) {
          if Before(f, w, s[i]) {
            BeforeCarries(f, w, s[i], s[n]);
          }
        }
        RankedAppend(s, w, f);
      }
    }
  }

  lemma {:induction false} BeforeCarries(f: Scorer, u: string, v: string, w: string)
    requires Before(f, u, v) && !Before(f, w, v)
    ensures Before(f, u, w)
  {
    LessIsTotal(v, w);
    if Less(u, v) && Less(v, w) {
      LessIsTransitive(u, v, w);
    }
  }

  lemma {:induction false} SortByKeeps(s: seq<string>, f: Scorer)
    ensures multiset(SortBy(s, f)) == multiset(s)
  {
    if s != [] {
      var n := |s| - 1;
      SortByKeeps(s[..n], f);
      InsertKeeps(SortBy(s[..n], f), s[n], f);
      assert s == s[..n] + [s[n]];
    }
  }

  lemma {:induction false} SortByOrders(s: seq<string>, f: Scorer)
    ensures Ranked(SortBy(s, f), f)
  {
    if s != [] {
      SortByOrders(s[..|s| - 1], f);
      InsertRanks(SortBy(s[..|s| - 1], f), s[|s| - 1], f);
    }
  }

  /** In plain terms: the higher score stands first, and of equal scores the word that
      is earlier in the alphabet. */
  predicate BestFirst(s: seq<string>, f: Scorer) {
    forall i, j :: 0 <= i < j < |s| ==>
      f(s[i]) >= f(s[j]) && (f(s[i]) == f(s[j]) ==> s[i] == s[j] || Less(s[i], s[j]))
  }

  lemma {:induction false} RankedIffBestFirst(s: seq<string>, f: Scorer)
    ensures Ranked(s, f) <==> BestFirst(s, f)
  {
    forall i, j | 0 <= i < j < |s|
      ensures !Before(f, s[j], s[i]) <==>
        f(s[i]) >= f(s[j]) && (f(s[i]) == f(s[j]) ==> s[i] == s[j] || Less(s[i], s[j]))
    {
      LessIsTotal(s[i], s[j]);
      LessIsStrict(s[i], s[j]);
    }
  }

  lemma {:induction false} SortByRanks(s: seq<string>, f: Scorer)
    ensures multiset(SortBy(s, f)) == multiset(s)
    ensures Ranked(SortBy(s, f), f) && BestFirst(SortBy(s, f), f)
  {
    SortByKeeps(s, f);
    SortByOrders(s, f);
    RankedIffBestFirst(SortBy(s, f), f);
  }

  lemma {:induction false} SameBest(s: seq<string>, t: seq<string>, f: Scorer, g: Scorer)
    requires s != [] && t != [] && Ranked(s, f) && Ranked(t, g)
    requires s[0] in t && t[0] in s && f(s[0]) == g(s[0]) && f(t[0]) == g(t[0])
    ensures s[0] == t[0]
  {
    var i :| 0 <= i < |t| && t[i] == s[0];
    var j :| 0 <= j < |s| && s[j] == t[0];
    LessIsTotal(s[0], t[0]);
  }

  lemma {:induction false} TailMultiset(s: seq<string>)
    requires s != []
    ensures multiset(s[1..]) == multiset(s) - multiset{s[0]}
  {
    assert s == [s[0]] + s[1..];
  }

  /** A ranking is unique: two rankings of the same words, by scores that agree on
      them, are the same list.  So no property here depends on which sorting
      algorithm the library uses, nor on the order the words came in. */
  lemma {:induction false} RankingIsUnique(s: seq<string>, t: seq<string>, f: Scorer, g: Scorer)
    requires multiset(s) == multiset(t) && Ranked(s, f) && Ranked(t, g)
    requires forall w :: w in s ==> f(w) == g(w)
    ensures s == t
  {
    assert |s| == |multiset(s)| == |t|;
    if s != [] {
      assert s[0] in multiset(t) && t[0] in multiset(s);
      SameBest(s, t, f, g);
      TailMultiset(s);
      TailMultiset(t);
      RankingIsUnique(s[1..], t[1..], f, g);
      assert s == [s[0]] + s[1..] && t == [t[0]] + t[1..];
    }
  }

  lemma {:induction false} SortIgnoresOrder(s: seq<string>, t: seq<string>, f: Scorer, g: Scorer)
    requires multiset(s) == multiset(t)
    requires forall w :: w in s ==> f(w) == g(w)
    ensures SortBy(s, f) == SortBy(t, g)
  {
    SortByRanks(s, f);
    SortByRanks(t, g);
    forall w | w in SortBy(s, f) ensures f(w) == g(w) {
      assert w in multiset(SortBy(s, f));
    }
    RankingIsUnique(SortBy(s, f), SortBy(t, g), f, g);
  }

  lemma {:induction false} InsertFurther(s: seq<string>, j: nat, w: string, f: Scorer)
    requires 0 < j <= |s| && Before(f, w, s[j - 1])
    ensures Insert(s[..j], w, f) + s[j..] == Insert(s[..j - 1], w, f) + s[j - 1..]
  {
    assert s[..j][..j - 1] == s[..j - 1];
    assert s[j - 1..] == [s[j - 1]] + s[j..];
  }

  /** Word w at place j among the sorted ones. */
  function PutAt(sorted: seq<string>, w: string, j: nat): seq<string>
    requires j <= |sorted|
  {
    sorted[..j] + [w] + sorted[j..]
  }

  lemma {:induction false} SwapLeft(sorted: seq<string>, w: string, j: nat, rest: seq<string>)
    requires 0 < j <= |sorted|
    ensures var s := PutAt(sorted, w, j) + rest;
      s[j - 1] == sorted[j - 1] && s[j] == w && s[j := s[j - 1]][j - 1 := w] == PutAt(sorted, w, j - 1) + rest
  {
  }

  lemma {:induction false} InsertIsPut(sorted: seq<string>, w: string, j: nat, f: Scorer)
    requires j <= |sorted| && Insert(sorted, w, f) == Insert(sorted[..j], w, f) + sorted[j..]
    requires j > 0 ==> !Before(f, w, sorted[j - 1])
    ensures Insert(sorted, w, f) == PutAt(sorted, w, j)
  {
  }

  /** Moves word i left past the words it precedes. */
  method MoveLeft(a: array<string>, i: nat, f: Scorer)
    requires i < a.Length
    modifies a
    ensures a[..] == Insert(old(a[..i]), old(a[i]), f) + old(a[i + 1..])
  {
    ghost var sorted, w, rest := a[..i], a[i], a[i + 1..];
    var j := i;
    assert sorted[..i] == sorted && sorted[i..] == [];
    while j > 0 && Before(f, a[j], a[j - 1])
      invariant 0 <= j <= i && a[..] == PutAt(sorted, w, j) + rest
      invariant Insert(sorted, w, f) == Insert(sorted[..j], w, f) + sorted[j..]
    {
      SwapLeft(sorted, w, j, rest);
      assert a[j] == a[..][j] && a[j - 1] == a[..][j - 1];
      InsertFurther(sorted, j, w, f);
      a[j], a[j - 1] := a[j - 1], a[j];
      j := j - 1;
    }
    if j > 0 {
      SwapLeft(sorted, w, j, rest);
      assert a[j] == a[..][j] && a[j - 1] == a[..][j - 1];
    }
    InsertIsPut(sorted, w, j, f);
  }

  /** The in-place sort of the word list. */
  method SortInPlace(a: array<string>, f: Scorer)
    modifies a
    ensures a[..] == SortBy(old(a[..]), f)
    ensures multiset(a[..]) == old(multiset(a[..])) && BestFirst(a[..], f)
  {
    ghost var was := a[..];
    for i := 0 to a.Length
      invariant a[..] == SortBy(was[..i], f) + was[i..]
    {
      SortStep(was, i, f);
      assert a[..i] == a[..][..i] && a[i] == a[..][i] && a[i + 1..] == a[..][i + 1..];
      MoveLeft(a, i, f);
    }
    assert was[..a.Length] == was;
    SortByRanks(was, f);
  }

  lemma {:induction false} SortStep(s: seq<string>, i: nat, f: Scorer)
    requires i < |s|
    ensures var t := SortBy(s[..i], f) + s[i..];
      && t[..i] == SortBy(s[..i], f) && t[i] == s[i] && t[i + 1..] == s[i + 1..]
    ensures SortBy(s[..i + 1], f) == Insert(SortBy(s[..i], f), s[i], f)
  {
    assert s[..i + 1][..i] == s[..i];
  }
}
