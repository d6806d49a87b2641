/** Filtering a word list (server/internal/game/filters.go). */
module WordLists {

  /** The words that satisfy p, in order. */
  function Keep(words: seq<string>, p: string -> bool): (r: seq<string>)
    ensures forall w :: w in r <==> w in words && p(w)
  {
    if words == [] then []
    else Keep(words[..|words| - 1], p) + if p(words[|words| - 1]) then [words[|words| - 1]] else []
  }

  lemma {:induction false} KeepOneMore(s: seq<string>, w: string, p: string -> bool)
    ensures Keep(s + [w], p) == Keep(s, p) + if p(w) then [w] else []
  {
    assert (s + [w])[..|s|] == s;
  }

  lemma {:induction false} KeepAnd(words: seq<string>, p: string -> bool, q: string -> bool, pq: string -> bool)
    requires forall w :: w in words ==> (pq(w) <==> p(w) && q(w))
    ensures Keep(Keep(words, p), q) == Keep(words, pq)
  {
    if words != [] {
      var n := |words| - 1;
      KeepAnd(words[..n], p, q, pq);
      KeepOneMore(Keep(words[..n], p), words[n], q);
      assert Keep(words[..n], p) + [] == Keep(words[..n], p);
    }
  }

  lemma {:induction false} KeepCong(words: seq<string>, p: string -> bool, q: string -> bool)
    requires forall w :: w in words ==> (p(w) <==> q(w))
    ensures Keep(words, p) == Keep(words, q)
  {
    if words != [] {
      KeepCong(words[..|words| - 1], p, q);
    }
  }

  lemma {:induction false} KeepMultiset(words: seq<string>, p: string -> bool, w: string)
    ensures multiset(Keep(words, p))[w] == if p(w) then multiset(words)[w] else 0
  {
    if words != [] {
      var n := |words| - 1;
      KeepMultiset(words[..n], p, w);
      assert words == words[..n] + [words[n]];
    }
  }

  /** The places of the words that are kept, in rising order, and all of them. */
  ghost predicate KeptPlaces(words: seq<string>, p: string -> bool, places: seq<nat>) {
    && (forall i :: 0 <= i < |places| ==> places[i] < |words| && p(words[places[i]]))
    && (forall i, j :: 0 <= i < j < |places| ==> places[i] < places[j])
    && (forall k :: 0 <= k < |words| && p(words[k]) ==> k in places)
  }

  lemma {:induction false} PlacesGrow(words: seq<string>, p: string -> bool, before: seq<nat>, places: seq<nat>)
    requires words != [] && KeptPlaces(words[..|words| - 1], p, before)
    requires places == before + if p(words[|words| - 1]) then [|words| - 1] else []
    ensures KeptPlaces(words, p, places)
  {
    var n := |words| - 1;
    forall k | 0 <= k < |words| && p(words[k]) ensures k in places {
      if k < n {
        assert words[..n][k] == words[k] && k in before;
      }
    }
    forall i | 0 <= i < |places| ensures places[i] < |words| && p(words[places[i]]) {
      if i < |before| {
        assert words[..n][before[i]] == words[before[i]];
      }
    }
  }

  /** Each passing word is kept once for each of its places, in the order of the list. */
  lemma {:induction false} KeepInOrder(words: seq<string>, p: string -> bool) returns (places: seq<nat>)
    ensures KeptPlaces(words, p, places) && |places| == |Keep(words, p)|
    ensures forall i :: 0 <= i < |places| ==> Keep(words, p)[i] == words[places[i]]
  {
    places := [];
    if words != [] {
      var n := |words| - 1;
      var before := KeepInOrder(words[..n], p);
      places := before + if p(words[n]) then [n] else [];
      PlacesGrow(words, p, before, places);
      assert forall i :: 0 <= i < |before| ==> words[..n][before[i]] == words[before[i]];
    }
  }

  // ----------------------------------------------------- the filter options

  type Filter = string -> bool

  function WithNoRepeatingCharacters(): Filter {
    w => forall i, j :: 0 <= i < j < |w| ==> w[i] != w[j]
  }

  /** A letter's index in a table of 26. */
  function Slot(c: char): (n: nat)
    requires 'a' <= c <= 'z'
    ensures n < 26
  {
    c as int - 'a' as int
  }

  /** No letter is repeated: there are as many different ones as places. */
  lemma {:induction false} NoRepeatsIffAllCount(w: string)
    ensures WithNoRepeatingCharacters()(w) <==> |set c | c in w| == |w|
  {
    if w != "" {
      var n, c := |w| - 1, w[|w| - 1];
      NoRepeatsIffAllCount(w[..n]);
      FewerLetters(w[..n]);
      assert w == w[..n] + [c];
      assert (set d | d in w) == (set d | d in w[..n]) + {c};
    }
  }

  lemma {:induction false} FewerLetters(w: string)
    ensures |set c | c in w| <= |w|
  {
    if w != "" {
      var n := |w| - 1;
      FewerLetters(w[..n]);
      assert w == w[..n] + [w[n]];
      assert (set d | d in w) == (set d | d in w[..n]) + {w[n]};
    }
  }

  /** The body of the WithNoRepeatingCharacters closure: one pass over a table of
      seen letters. */
  method HasNoRepeatingCharacters(word: string) returns (ok: bool)
    requires forall i :: 0 <= i < |word| ==> 'a' <= word[i] <= 'z'
    ensures ok <==> WithNoRepeatingCharacters()(word)
  {
    var seen := new bool[26](_ => false);
    for i := 0 to |word|
      invariant forall j :: 0 <= j < i ==> seen[Slot(word[j])]
      invariant forall n :: 0 <= n < 26 && seen[n] ==> exists j :: 0 <= j < i && Slot(word[j]) == n
      invariant forall j, k :: 0 <= j < k < i ==> word[j] != word[k]
    {
      if seen[Slot(word[i])] {
        return false;
      }
      seen[Slot(word[i])] := true;
    }
    return true;
  }

  function Allowed(filters: seq<Filter>): Filter {
    w => forall k :: 0 <= k < |filters| ==> filters[k](w)
  }

  method Allow(filters: seq<Filter>, word: string) returns (ok: bool)
    ensures ok <==> Allowed(filters)(word)
    ensures ok <==> forall f :: f in filters ==> f(word)
  {
    for k := 0 to |filters|
      invariant forall j :: 0 <= j < k ==> filters[j](word)
    {
      if !filters[k](word) {
        return false;
      }
    }
    return true;
  }

  /** Apply builds its result in a new array: the dictionary it reads is shared. */
  method Apply(filters: seq<Filter>, words: array<string>) returns (r: array<string>)
    ensures fresh(r)
    ensures r[..] == Keep(words[..], Allowed(filters))
  {
    var result: seq<string> := [];
    for i := 0 to words.Length
      invariant result == Keep(words[..i], Allowed(filters))
    {
      var ok := Allow(filters, words[i]);
      if ok {
        result := result + [words[i]];
      }
      assert words[..i + 1][..i] == words[..i];
    }
    assert words[..words.Length] == words[..];
    r := new string[|result|](i requires 0 <= i < |result| => result[i]);
    assert r[..] == result;
  }
}
