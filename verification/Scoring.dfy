/** Scoring one guess against an answer (server/internal/game/attempt.go).

    `Score` gives every tile in closed form.  `Attempt.ComputeResult` is the
    two-phase loop over a consumed frequency map and is proved to compute it.
    `IsScore` is the independent multiset reading of the rules; the lemmas
    below prove that `Score` meets it and that nothing else does. */
module Scoring {

  datatype Status = NotPresent | Unknown | WrongLocation | CorrectLocation

  /** A recorded guess as it is stored in the game (the struct is copied). */
  datatype Scored = Scored(answer: string, result: seq<Status>)

  // ---------------------------------------------------------------- counting

  /** How many of the first n letters of s are c. */
  function Copies(s: string, c: char, n: nat): (r: nat)
    requires n <= |s|
  {
    if n == 0 then 0 else Copies(s, c, n - 1) + if s[n - 1] == c then 1 else 0
  }

  /** How many of the first n places hold c in both words. */
  function Greens(g: string, a: string, c: char, n: nat): (r: nat)
    requires n <= |g| == |a|
    ensures r <= Copies(g, c, n) && r <= Copies(a, c, n)
  {
    if n == 0 then 0 else Greens(g, a, c, n - 1) + if g[n - 1] == a[n - 1] == c then 1 else 0
  }

  /** Copies of c among the first n letters of the guess that are not green. */
  function Misses(g: string, a: string, c: char, n: nat): nat
    requires n <= |g| == |a|
  {
    Copies(g, c, n) - Greens(g, a, c, n)
  }

  /** Copies of c in the answer that no green tile uses up. */
  function Spare(g: string, a: string, c: char): nat
    requires |g| == |a|
  {
    Copies(a, c, |a|) - Greens(g, a, c, |a|)
  }

  function Tile(g: string, a: string, i: nat): Status
    requires i < |g| == |a|
  {
    if g[i] == a[i] then CorrectLocation
    else if Misses(g, a, g[i], i) < Spare(g, a, g[i]) then WrongLocation
    else NotPresent
  }

  function Score(g: string, a: string): (r: seq<Status>)
    requires |g| == |a|
    ensures |r| == |g|
  {
    seq(|g|, i requires 0 <= i < |g| => Tile(g, a, i))
  }

  // ------------------------------------------------------- the scoring loops

  function Freq(m: map<char, int>, c: char): int {
    if c in m then m[c] else 0
  }

  method LetterFrequencies(answer: string) returns (freq: map<char, int>)
    ensures forall c :: Freq(freq, c) == Copies(answer, c, |answer|)
  {
    freq := map[];
    for i := 0 to |answer|
      invariant forall c :: Freq(freq, c) == Copies(answer, c, i)
    {
      freq := freq[answer[i] := Freq(freq, answer[i]) + 1];
    }
  }

  /** What phase 1 has left of every letter once it has seen i tiles. */
  ghost predicate SparesAre(freq: map<char, int>, g: string, a: string, i: nat)
    requires i <= |g| == |a|
  {
    forall c :: Freq(freq, c) == Copies(a, c, |a|) - Greens(g, a, c, i)
  }

  lemma {:induction false} SpareStep(g: string, a: string, freq: map<char, int>, i: nat)
    requires i < |g| == |a| && SparesAre(freq, g, a, i)
    ensures SparesAre(if g[i] == a[i] then freq[a[i] := Freq(freq, a[i]) - 1] else freq, g, a, i + 1)
  {
  }

  /** What phase 2 has left of letter c once it has seen i tiles. */
  function Left(g: string, a: string, c: char, i: nat): int
    requires i <= |g| == |a|
  {
    if Misses(g, a, c, i) < Spare(g, a, c) then Spare(g, a, c) - Misses(g, a, c, i) else 0
  }

  ghost predicate LeftsAre(freq: map<char, int>, g: string, a: string, i: nat)
    requires i <= |g| == |a|
  {
    forall c :: Freq(freq, c) == Left(g, a, c, i) >= 0
  }

  /** A tile that is not green takes a copy if there is one left, and is yellow then. */
  lemma {:induction false} LeftStep(g: string, a: string, freq: map<char, int>, i: nat)
    requires i < |g| == |a| && LeftsAre(freq, g, a, i)
    ensures g[i] != a[i] && Freq(freq, g[i]) > 0 ==> LeftsAre(freq[g[i] := Freq(freq, g[i]) - 1], g, a, i + 1)
    ensures g[i] == a[i] || Freq(freq, g[i]) <= 0 ==> LeftsAre(freq, g, a, i + 1)
    ensures g[i] != a[i] ==> (Tile(g, a, i) == WrongLocation <==> Freq(freq, g[i]) > 0)
  {
    var freq' := if g[i] != a[i] && Freq(freq, g[i]) > 0 then freq[g[i] := Freq(freq, g[i]) - 1] else freq;
    forall c ensures Freq(freq', c) == Left(g, a, c, i + 1) >= 0 {
      assert Freq(freq, c) == Left(g, a, c, i);
      assert Misses(g, a, c, i + 1) == Misses(g, a, c, i) + if g[i] == c && a[i] != c then 1 else 0;
    }
    assert Freq(freq, g[i]) == Left(g, a, g[i], i);
  }

  /** Phase 2 has dealt with the first i tiles. */
  ghost predicate TilesAre(r: seq<Status>, g: string, a: string, i: nat)
    requires |g| == |a| == |r|
  {
    forall k :: 0 <= k < |g| ==>
      r[k] == if k < i then Tile(g, a, k) else if g[k] == a[k] then CorrectLocation else NotPresent
  }

  lemma {:induction false} TileStep(r: seq<Status>, g: string, a: string, i: nat)
    requires i < |g| == |a| == |r| && TilesAre(r, g, a, i)
    ensures r[i] == CorrectLocation <==> g[i] == a[i]
    ensures r[i] == CorrectLocation ==> TilesAre(r, g, a, i + 1)
    ensures TilesAre(r[i := Tile(g, a, i)], g, a, i + 1)
  {
  }

  class Attempt {
    var Answer: string
    var Result: seq<Status>

    constructor (word: string)
      ensures Answer == word && Result == []
    {
      Answer := word;
      Result := [];
    }

    method ComputeResult(answer: string) returns (ok: bool)
      modifies this`Result
      ensures ok <==> |answer| == |Answer|
      ensures ok ==> Result == Score(Answer, answer)
      ensures !ok ==> Result == old(Result)
    {
      if |answer| != |Answer| {
        return false;
      }
      Result := seq(|Answer|, _ => NotPresent);
      var freq := LetterFrequencies(answer);
      freq := MarkExact(answer, freq);
      MarkRest(answer, freq);
      assert Result == Score(Answer, answer);
      return true;
    }

    /** Phase 1: exact matches, each using up its copy in freq. */
    method MarkExact(answer: string, freq0: map<char, int>) returns (freq: map<char, int>)
      requires |answer| == |Answer| && Result == seq(|Answer|, _ => NotPresent)
      requires forall c :: Freq(freq0, c) == Copies(answer, c, |answer|)
      modifies this`Result
      ensures |Result| == |Answer|
      ensures forall k :: 0 <= k < |Answer| ==>
        Result[k] == if Answer[k] == answer[k] then CorrectLocation else NotPresent
      ensures forall c :: Freq(freq, c) == Spare(Answer, answer, c)
    {
      freq := freq0;
      for i := 0 to |Answer|
        invariant |Result| == |Answer|
        invariant forall k :: 0 <= k < |Answer| ==>
          Result[k] == if k < i && Answer[k] == answer[k] then CorrectLocation else NotPresent
        invariant SparesAre(freq, Answer, answer, i)
      {
        SpareStep(Answer, answer, freq, i);
        if Answer[i] == answer[i] {
          Result := Result[i := CorrectLocation];
          freq := freq[answer[i] := Freq(freq, answer[i]) - 1];
        }
      }
    }

    /** Phase 2: the other tiles take what is left, from the left; a frequency
        never goes below zero. */
    method MarkRest(answer: string, freq0: map<char, int>)
      requires |answer| == |Answer| == |Result|
      requires forall k :: 0 <= k < |Answer| ==>
        Result[k] == if Answer[k] == answer[k] then CorrectLocation else NotPresent
      requires forall c :: Freq(freq0, c) == Spare(Answer, answer, c)
      modifies this`Result
      ensures |Result| == |Answer|
      ensures forall k :: 0 <= k < |Answer| ==> Result[k] == Tile(Answer, answer, k)
    {
      var freq := freq0;
      for i := 0 to |Answer|
        invariant |Result| == |Answer| && TilesAre(Result, Answer, answer, i)
        invariant LeftsAre(freq, Answer, answer, i)
      {
        LeftStep(Answer, answer, freq, i);
        TileStep(Result, Answer, answer, i);
        if Result[i] == CorrectLocation {
          continue;
        }
        var ch := Answer[i];
        if Freq(freq, ch) > 0 {
          Result := Result[i := WrongLocation];
          freq := freq[ch := Freq(freq, ch) - 1];
        } else {
          Result := Result[i := NotPresent];
        }
      }
    }
  }

  // ------------------------------------------------- the multiset reading

  function Min(x: int, y: int): int { if x <= y then x else y }

  /** How many of the first n tiles are copies of c with status st. */
  function Tiles(g: string, r: seq<Status>, c: char, st: Status, n: nat): nat
    requires n <= |g| == |r|
  {
    if n == 0 then 0 else Tiles(g, r, c, st, n - 1) + if g[n - 1] == c && r[n - 1] == st then 1 else 0
  }

  /** Tiles of c that are not grey. */
  function Marked(g: string, r: seq<Status>, c: char): nat
    requires |g| == |r|
  {
    Tiles(g, r, c, CorrectLocation, |g|) + Tiles(g, r, c, WrongLocation, |g|)
  }

  /** The rules of the game, said without any procedure: green exactly on the
      matching places, for every letter as many coloured tiles as copies the two
      words share, and the yellow copies of a letter stand left of its grey ones. */
  ghost predicate IsScore(g: string, a: string, r: seq<Status>) {
    && |g| == |a| == |r|
    && (forall i :: 0 <= i < |g| ==> r[i] != Unknown && (r[i] == CorrectLocation <==> g[i] == a[i]))
    && (forall c :: Marked(g, r, c) == Min(multiset(g)[c], multiset(a)[c]))
    && YellowsFirst(g, r)
  }

  ghost predicate YellowsFirst(g: string, r: seq<Status>)
    requires |g| == |r|
  {
    forall i, j :: 0 <= i < j < |g| && g[i] == g[j] && r[i] == NotPresent ==> r[j] != WrongLocation
  }

  lemma {:induction false} CopiesIsMultiplicity(s: string, c: char, n: nat)
    requires n <= |s|
    ensures Copies(s, c, n) == multiset(s[..n])[c]
    ensures n == |s| ==> Copies(s, c, n) == multiset(s)[c]
  {
    if n > 0 {
      CopiesIsMultiplicity(s, c, n - 1);
      assert s[..n] == s[..n - 1] + [s[n - 1]];
    }
    assert s[..|s|] == s;
  }

  lemma {:induction false} CopiesSplit(g: string, a: string, c: char, i: nat, n: nat)
    requires i < n <= |g| == |a|
    ensures Misses(g, a, c, i) <= Misses(g, a, c, n)
    ensures g[i] == c && a[i] != c ==> Misses(g, a, c, i) < Misses(g, a, c, n)
    ensures g[i] == c ==> Copies(g, c, n) >= 1
    decreases n
  {
    if i < n - 1 {
      CopiesSplit(g, a, c, i, n - 1);
    }
  }

  /** The coloured tiles of Score, counted. */
  lemma {:induction false} ScoreTiles(g: string, a: string, c: char, n: nat)
    requires n <= |g| == |a|
    ensures Tiles(g, Score(g, a), c, CorrectLocation, n) == Greens(g, a, c, n)
    ensures Tiles(g, Score(g, a), c, WrongLocation, n) == Min(Misses(g, a, c, n), Spare(g, a, c))
  {
    if n > 0 {
      ScoreTiles(g, a, c, n - 1);
    }
  }

  lemma {:induction false} ScoreMeetsSpec(g: string, a: string)
    requires |g| == |a|
    ensures IsScore(g, a, Score(g, a))
  {
    var r := Score(g, a);
    forall c ensures Marked(g, r, c) == Min(multiset(g)[c], multiset(a)[c]) {
      ScoreTiles(g, a, c, |g|);
      CopiesIsMultiplicity(g, c, |g|);
      CopiesIsMultiplicity(a, c, |a|);
    }
    forall i, j | 0 <= i < j < |g| && g[i] == g[j] && r[i] == NotPresent ensures r[j] != WrongLocation {
      CopiesSplit(g, a, g[i], i, j);
    }
  }

  /** Where the yellow copies stand left of the grey ones, a tile's colour is
      settled by how many copies precede it. */
  lemma {:induction false} YellowsByPosition(g: string, a: string, r: seq<Status>, c: char, n: nat)
    requires n <= |g| == |a| == |r| && YellowsFirst(g, r)
    requires forall i :: 0 <= i < |g| ==> r[i] != Unknown && (r[i] == CorrectLocation <==> g[i] == a[i])
    ensures Tiles(g, r, c, CorrectLocation, n) == Greens(g, a, c, n)
    ensures Tiles(g, r, c, WrongLocation, n) <= Misses(g, a, c, n)
    ensures Tiles(g, r, c, WrongLocation, n) < Misses(g, a, c, n) ==>
              exists i :: 0 <= i < n && g[i] == c && r[i] == NotPresent
    ensures forall i :: 0 <= i < n && g[i] == c && r[i] == NotPresent ==>
              Tiles(g, r, c, WrongLocation, n) <= Misses(g, a, c, i)
    ensures forall i :: 0 <= i < n && g[i] == c && r[i] == WrongLocation ==>
              Misses(g, a, c, i) < Tiles(g, r, c, WrongLocation, n)
  {
    if n > 0 {
      YellowsByPosition(g, a, r, c, n - 1);
    }
  }

  /** The rules leave no choice: any result that obeys them is Score. */
  lemma {:induction false} SpecIsUnique(g: string, a: string, r: seq<Status>)
    requires IsScore(g, a, r)
    ensures r == Score(g, a)
  {
    forall i | 0 <= i < |g| ensures r[i] == Tile(g, a, i) {
      var c := g[i];
      YellowsByPosition(g, a, r, c, |g|);
      CopiesIsMultiplicity(g, c, |g|);
      CopiesIsMultiplicity(a, c, |a|);
      CopiesSplit(g, a, c, i, |g|);
    }
  }

  lemma {:induction false} AllGreenIffSolved(g: string, a: string)
    requires |g| == |a|
    ensures (forall i :: 0 <= i < |g| ==> Score(g, a)[i] == CorrectLocation) <==> g == a
  {
    if forall i :: 0 <= i < |g| ==> Score(g, a)[i] == CorrectLocation {
      forall i | 0 <= i < |g| ensures g[i] == a[i] {
        assert Score(g, a)[i] == CorrectLocation;
      }
    }
  }

  /** The letters under the coloured tiles. */
  function Coloured(g: string, r: seq<Status>): string
    requires |g| == |r|
  {
    if |g| == 0 then []
    else Coloured(g[..|g| - 1], r[..|g| - 1]) +
         if r[|g| - 1] in {CorrectLocation, WrongLocation} then [g[|g| - 1]] else []
  }

  lemma {:induction false} TilesOfPrefix(g: string, r: seq<Status>, c: char, st: Status, n: nat, m: nat)
    requires n <= m <= |g| == |r|
    ensures Tiles(g[..m], r[..m], c, st, n) == Tiles(g, r, c, st, n)
  {
    if n > 0 {
      TilesOfPrefix(g, r, c, st, n - 1, m);
    }
  }

  lemma {:induction false} ColouredCounts(g: string, r: seq<Status>, c: char)
    requires |g| == |r|
    ensures multiset(Coloured(g, r))[c] == Marked(g, r, c)
  {
    if |g| > 0 {
      var n := |g| - 1;
      ColouredCounts(g[..n], r[..n], c);
      TilesOfPrefix(g, r, c, CorrectLocation, n, n);
      TilesOfPrefix(g, r, c, WrongLocation, n, n);
    }
  }

  /** The coloured letters are exactly what guess and answer have in common, so
      their number is the same whichever word is the guess. */
  lemma {:induction false} ColouredIsSharedLetters(g: string, a: string)
    requires |g| == |a|
    ensures multiset(Coloured(g, Score(g, a))) == multiset(g) * multiset(a)
    ensures |Coloured(g, Score(g, a))| == |Coloured(a, Score(a, g))|
  {
    forall x: string, y: string | |x| == |y|
      ensures multiset(Coloured(x, Score(x, y))) == multiset(x) * multiset(y)
    {
      ScoreMeetsSpec(x, y);
      var r := Score(x, y);
      forall c ensures multiset(Coloured(x, r))[c] == (multiset(x) * multiset(y))[c] {
        ColouredCounts(x, r, c);
      }
    }
    assert |multiset(Coloured(g, Score(g, a)))| == |multiset(Coloured(a, Score(a, g)))| by {
      assert multiset(g) * multiset(a) == multiset(a) * multiset(g);
    }
  }
}
