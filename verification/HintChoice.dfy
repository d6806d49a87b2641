/** Which words are hinted, said without the code's own scores and sorts
    (server/internal/game/hints.go): what each branch counts, and that the hints are
    the words with the highest counts. */
module HintChoice {
  import opened Scoring
  import opened Letters
  import opened WordLists
  import opened HintFilters
  import opened Lex
  import opened Ranking
  import opened Hints

  // ------------------------------------------------------- what scores count

  function LettersIn(w: string): set<char> {
    set c | c in w
  }

  /** All the words in a row. */
  function Text(words: seq<string>): string {
    if words == [] then "" else Text(words[..|words| - 1]) + words[|words| - 1]
  }

  /** The places of a text that hold one of the letters. */
  function PlacesOf(t: string, letters: set<char>): set<nat> {
    set i: nat | i < |t| && t[i] in letters
  }

  lemma {:induction false} OneMoreLetter(w: string, n: nat)
    requires 0 < n <= |w|
    ensures LettersIn(w[..n]) == LettersIn(w[..n - 1]) + {w[n - 1]}
  {
    assert w[..n] == w[..n - 1] + [w[n - 1]];
  }

  lemma {:induction false} OneMoreAmong(before: set<char>, c: char, letters: set<char>)
    ensures |(before + {c}) * letters| == |before * letters| + if c in letters && c !in before then 1 else 0
  {
    if c in letters && c !in before {
      assert (before + {c}) * letters == before * letters + {c};
    } else {
      assert (before + {c}) * letters == before * letters;
    }
  }

  /** The letters of w among some are counted once each. */
  lemma {:induction false} AmongCounts(w: string, letters: set<char>, n: nat)
    requires n <= |w|
    ensures DistinctSum(w, Among(letters), n) == |LettersIn(w[..n]) * letters|
  {
    if n == 0 {
      assert LettersIn(w[..0]) == {};
    } else {
      AmongCounts(w, letters, n - 1);
      OneMoreLetter(w, n);
      OneMoreAmong(LettersIn(w[..n - 1]), w[n - 1], letters);
    }
  }

  lemma {:induction false} OneCounts(w: string, n: nat)
    requires n <= |w|
    ensures DistinctSum(w, One(), n) == |LettersIn(w[..n])|
  {
    if n == 0 {
      assert LettersIn(w[..0]) == {};
    } else {
      OneCounts(w, n - 1);
      OneMoreLetter(w, n);
      var before := LettersIn(w[..n - 1]);
      assert w[n - 1] in before ==> before + {w[n - 1]} == before;
    }
  }

  lemma {:induction false} CopiesArePlaces(t: string, c: char, n: nat)
    requires n <= |t|
    ensures Copies(t, c, n) == |PlacesOf(t[..n], {c})|
  {
    if n > 0 {
      CopiesArePlaces(t, c, n - 1);
      assert PlacesOf(t[..n], {c}) == PlacesOf(t[..n - 1], {c}) + if t[n - 1] == c then {n - 1} else {};
    }
  }

  lemma {:induction false} CopiesOfBoth(s: string, t: string, c: char)
    ensures Copies(s + t, c, |s + t|) == Copies(s, c, |s|) + Copies(t, c, |t|)
  {
    CopiesIsMultiplicity(s + t, c, |s + t|);
    CopiesIsMultiplicity(s, c, |s|);
    CopiesIsMultiplicity(t, c, |t|);
  }

  lemma {:induction false} FrequencyIsPlaces(words: seq<string>, c: char)
    ensures FrequencyIn(words)(c) == |PlacesOf(Text(words), {c})|
  {
    FrequencyIsCopies(words, c);
    CopiesArePlaces(Text(words), c, |Text(words)|);
    assert Text(words)[..|Text(words)|] == Text(words);
  }

  lemma {:induction false} FrequencyIsCopies(words: seq<string>, c: char)
    ensures Total(words, CopiesOf(c)) == Copies(Text(words), c, |Text(words)|)
  {
    if words != [] {
      var n := |words| - 1;
      FrequencyIsCopies(words[..n], c);
      CopiesOfBoth(Text(words[..n]), words[n], c);
    }
  }

  lemma {:induction false} OneMorePlace(t: string, before: set<char>, c: char)
    ensures |PlacesOf(t, before + {c})| == |PlacesOf(t, before)| + if c in before then 0 else |PlacesOf(t, {c})|
  {
    if c in before {
      assert before + {c} == before;
    } else {
      assert PlacesOf(t, before + {c}) == PlacesOf(t, before) + PlacesOf(t, {c});
      assert PlacesOf(t, before) !! PlacesOf(t, {c});
    }
  }

  /** All the places of the words that hold a letter of w are counted. */
  lemma {:induction false} FrequencyCounts(words: seq<string>, w: string, n: nat)
    requires n <= |w|
    ensures DistinctSum(w, FrequencyIn(words), n) == |PlacesOf(Text(words), LettersIn(w[..n]))|
  {
    if n == 0 {
      assert PlacesOf(Text(words), LettersIn(w[..0])) == {};
    } else {
      FrequencyCounts(words, w, n - 1);
      FrequencyIsPlaces(words, w[n - 1]);
      OneMoreLetter(w, n);
      OneMorePlace(Text(words), LettersIn(w[..n - 1]), w[n - 1]);
    }
  }

  predicate InNoWord(words: seq<string>, c: char) {
    forall k :: 0 <= k < |words| ==> c !in words[k]
  }

  predicate OnlyIn(words: seq<string>, c: char, k: nat) {
    k < |words| && c in words[k] && forall j :: 0 <= j < |words| && j != k ==> c !in words[j]
  }

  /** Exactly one of the words has the letter. */
  ghost predicate InOneWord(words: seq<string>, c: char) {
    exists k :: OnlyIn(words, c, k)
  }

  lemma {:induction false} InNoneOfMore(words: seq<string>, c: char)
    requires words != []
    ensures var n := |words| - 1; InNoWord(words, c) <==> InNoWord(words[..n], c) && c !in words[n]
  {
    assert forall k :: 0 <= k < |words| - 1 ==> words[..|words| - 1][k] == words[k];
  }

  lemma {:induction false} OnlyInMore(words: seq<string>, c: char, k: nat)
    requires words != []
    ensures var n := |words| - 1;
      OnlyIn(words, c, k) <==>
        if k == n then c in words[n] && InNoWord(words[..n], c) else OnlyIn(words[..n], c, k) && c !in words[n]
  {
    assert forall j :: 0 <= j < |words| - 1 ==> words[..|words| - 1][j] == words[j];
  }

  lemma {:induction false} InOneOfMore(words: seq<string>, c: char)
    requires words != []
    ensures var n := |words| - 1;
      InOneWord(words, c) <==> if c in words[n] then InNoWord(words[..n], c) else InOneWord(words[..n], c)
  {
    var n := |words| - 1;
    OnlyInMore(words, c, n);
    forall k: nat ensures OnlyIn(words, c, k) <==>
      if k == n then c in words[n] && InNoWord(words[..n], c) else OnlyIn(words[..n], c, k) && c !in words[n]
    {
      OnlyInMore(words, c, k);
    }
  }

  lemma {:induction false} HasLetterTotal(words: seq<string>, c: char)
    ensures Total(words, HasLetter(c)) >= 0
    ensures Total(words, HasLetter(c)) == 0 <==> InNoWord(words, c)
    ensures Total(words, HasLetter(c)) == 1 <==> InOneWord(words, c)
  {
    if words != [] {
      HasLetterTotal(words[..|words| - 1], c);
      InNoneOfMore(words, c);
      InOneOfMore(words, c);
    }
  }

  lemma {:induction false} DifferingAreInOneWord(words: seq<string>, c: char)
    ensures c in Differing(words) <==> InOneWord(words, c)
  {
    HasLetterTotal(words, c);
    assert c in LettersOf(words) <==> !InNoWord(words, c);
  }

  // --------------------------------------------------------- what is hinted

  predicate IsNew(attempts: seq<Scored>, w: string) {
    forall k :: 0 <= k < |attempts| ==> attempts[k].answer != w
  }

  /** The hints are words of the list that are new, the higher count first and the
      earlier in the alphabet of equal ones; if a new word of the list is left out there
      are five hints, all of which stand before it by that order. */
  ghost predicate BestOf(hints: seq<string>, words: seq<string>, attempts: seq<Scored>, count: Scorer) {
    && |hints| <= 5
    && (forall h :: h in hints ==> h in words && IsNew(attempts, h))
    && (forall i, j :: 0 <= i < j < |hints| ==>
          count(hints[i]) >= count(hints[j]) &&
          (count(hints[i]) == count(hints[j]) ==> hints[i] == hints[j] || Less(hints[i], hints[j])))
    && (forall w :: w in words && IsNew(attempts, w) && w !in hints ==>
          |hints| == 5 && forall i :: 0 <= i < 5 ==>
            count(hints[i]) >= count(w) && (count(hints[i]) == count(w) ==> Less(hints[i], w)))
  }

  function MissingLetters(matches: seq<string>, placed: set<char>): set<char> {
    set c: char | !InNoWord(matches, c) && c !in placed
  }

  ghost function OneWordLetters(matches: seq<string>): set<char> {
    set c: char | InOneWord(matches, c)
  }

  function LettersOfStatus(m: LetterMap, st: Status): set<char> {
    set c: char | 'a' <= c <= 'z' && StatusOf(m, c) == st
  }

  /** How many of these letters w has. */
  function CountOf(letters: set<char>): Scorer {
    (w: string) => |LettersIn(w) * letters|
  }

  /** How many places of the matches hold a letter of w. */
  function PlaceCount(matches: seq<string>): Scorer {
    (w: string) => |PlacesOf(Text(matches), LettersIn(w))|
  }

  lemma {:induction false} LettersAre(matches: seq<string>, placed: set<char>)
    ensures Missing(matches, placed) == MissingLetters(matches, placed)
    ensures Differing(matches) == OneWordLetters(matches)
  {
    forall c ensures c in Differing(matches) <==> InOneWord(matches, c) {
      DifferingAreInOneWord(matches, c);
    }
  }

  lemma {:induction false} ScoresAreCounts(letters: set<char>, matches: seq<string>)
    ensures forall w :: ByLetters(Among(letters))(w) == CountOf(letters)(w)
    ensures forall w :: ByLetters(FrequencyIn(matches))(w) == PlaceCount(matches)(w)
  {
    forall w
      ensures ByLetters(Among(letters))(w) == CountOf(letters)(w)
      ensures ByLetters(FrequencyIn(matches))(w) == PlaceCount(matches)(w)
    {
      assert w[..|w|] == w;
      AmongCounts(w, letters, |w|);
      FrequencyCounts(matches, w, |w|);
    }
  }

  /** A list sorted by a score that is the count, without the old words, cut at five. */
  lemma {:induction false} SortedIsBest(words: seq<string>, attempts: seq<Scored>, f: Scorer, count: Scorer)
    requires forall w :: f(w) == count(w)
    ensures BestOf(FirstFew(Keep(SortBy(words, f), NotAttempted(attempts))), words, attempts, count)
  {
    var kept := Keep(SortBy(words, f), NotAttempted(attempts));
    SortByRanks(words, f);
    SortedMembers(words, f);
    KeepRanked(SortBy(words, f), NotAttempted(attempts), f);
    FirstFewAmong(kept);
    RankedIffBestFirst(kept, f);
    assert forall i :: 0 <= i < |FirstFew(kept)| ==> FirstFew(kept)[i] == kept[i];
    forall w | w in words && IsNew(attempts, w) && w !in FirstFew(kept)
      ensures |FirstFew(kept)| == 5
      ensures forall i :: 0 <= i < 5 ==>
        count(FirstFew(kept)[i]) >= count(w) && (count(FirstFew(kept)[i]) == count(w) ==> Less(FirstFew(kept)[i], w))
    {
      assert w in kept;
      FirstFewAreBest(kept, f, w);
    }
  }

  /** The length of the longest word. */
  ghost predicate Longest(words: seq<string>, n: nat) {
    && (forall w :: w in words ==> |w| <= n)
    && (words == [] ==> n == 0)
    && (words != [] ==> exists w :: w in words && |w| == n)
  }

  lemma {:induction false} LongestIsMaximum(words: seq<string>, n: nat)
    requires Longest(words, n)
    ensures MaxLength(words) == n && MostOfAWord(words) == n * 3 / 4
  {
  }

  lemma {:induction false} BranchIs(dict: seq<string>, matches: seq<string>, m: LetterMap, longest: nat)
    requires Longest(dict, longest)
    ensures var placed := LettersOfStatus(m, CorrectLocation);
      var enough, branch := |placed| >= longest * 3 / 4, BranchFor(dict, matches, m);
      if |matches| <= 1 then branch == AsFound
      else if enough && |matches| >= 4 then branch == RankDictionary(ByLetters(Among(MissingLetters(matches, placed))))
      else if !enough && |OneWordLetters(matches)| >= 4
      then branch == RankDictionary(ByLetters(Among(OneWordLetters(matches))))
      else branch == RankMatches(ByLetters(FrequencyIn(matches)))
  {
    LongestIsMaximum(dict, longest);
    assert LettersOfStatus(m, CorrectLocation) == LettersWith(m, CorrectLocation);
    LettersAre(matches, LettersOfStatus(m, CorrectLocation));
  }

  lemma {:induction false} SingleIsKept(matches: seq<string>, attempts: seq<Scored>)
    requires |matches| <= 1
    ensures FirstFew(Keep(matches, NotAttempted(attempts))) ==
            if matches != [] && IsNew(attempts, matches[0]) then matches else []
  {
    if |matches| == 1 {
      assert matches == [] + [matches[0]];
      KeepOneMore([], matches[0], NotAttempted(attempts));
    }
  }

  /** The hints in every branch.  At most one match is given as it is.  With three
      quarters of the longest word's length in placed letters and four matches or more,
      the allowed words with the most missing letters; with fewer placed and four
      letters or more that only one match has, those with the most of these; otherwise
      the matches whose letters hold the most places of the matches. */
  lemma {:induction false} HintsAre(dict: seq<string>, attempts: seq<Scored>, m: LetterMap, longest: nat)
    requires Longest(dict, longest)
    ensures var matches, hints := Matches(dict, attempts, m), HintsFor(dict, attempts, m);
      var placed := LettersOfStatus(m, CorrectLocation);
      var enough := |placed| >= longest * 3 / 4;
      if |matches| <= 1 then
        hints == if matches != [] && IsNew(attempts, matches[0]) then matches else []
      else if enough && |matches| >= 4 then
        BestOf(hints, dict, attempts, CountOf(MissingLetters(matches, placed)))
      else if !enough && |OneWordLetters(matches)| >= 4 then
        BestOf(hints, dict, attempts, CountOf(OneWordLetters(matches)))
      else
        BestOf(hints, matches, attempts, PlaceCount(matches))
  {
    var matches := Matches(dict, attempts, m);
    BranchIs(dict, matches, m, longest);
    match BranchFor(dict, matches, m)
    case AsFound =>
      SingleIsKept(matches, attempts);
    case RankDictionary(f) =>
      var placed := LettersOfStatus(m, CorrectLocation);
      var letters := if |placed| >= longest * 3 / 4 then MissingLetters(matches, placed) else OneWordLetters(matches);
      ScoresAreCounts(letters, matches);
      SortedIsBest(dict, attempts, f, CountOf(letters));
    case RankMatches(f) =>
      ScoresAreCounts({}, matches);
      SortedIsBest(matches, attempts, f, PlaceCount(matches));
  }

  lemma {:induction false} UntriedAre(dict: seq<string>, untried: set<char>, w: string)
    ensures multiset(SortBy(Keep(dict, AllFrom(untried)), ByLetters(One())))[w] ==
            if LettersIn(w) <= untried then multiset(dict)[w] else 0
    ensures Keep(dict, AllFrom(untried)) == [] <==> !exists v :: v in dict && LettersIn(v) <= untried
  {
    forall v ensures AllFrom(untried)(v) <==> LettersIn(v) <= untried {
      assert forall i :: 0 <= i < |v| ==> v[i] in LettersIn(v);
    }
    SortByRanks(Keep(dict, AllFrom(untried)), ByLetters(One()));
    KeepMultiset(dict, AllFrom(untried), w);
    assert Keep(dict, AllFrom(untried)) != [] ==> Keep(dict, AllFrom(untried))[0] in Keep(dict, AllFrom(untried));
  }

  /** The matches: the allowed words of untried letters alone, if there are any, more than
      twenty letters are untried and enough are placed; otherwise the words that pass the
      three filters. */
  lemma {:induction false} MatchesAre(dict: seq<string>, attempts: seq<Scored>, m: LetterMap, longest: nat, w: string)
    requires Longest(dict, longest)
    ensures var untried, placed := LettersOfStatus(m, Unknown), LettersOfStatus(m, CorrectLocation);
      var matches := Matches(dict, attempts, m);
      if |untried| > 20 && |placed| >= longest * 3 / 4 && exists v :: v in dict && LettersIn(v) <= untried
      then multiset(matches)[w] == if LettersIn(w) <= untried then multiset(dict)[w] else 0
      else matches == Keep(dict, Passes(attempts, m))
  {
    LongestIsMaximum(dict, longest);
    assert LettersOfStatus(m, CorrectLocation) == LettersWith(m, CorrectLocation);
    assert LettersOfStatus(m, Unknown) == LettersWith(m, Unknown);
    UntriedAre(dict, LettersWith(m, Unknown), w);
    CandidatesKeepPassing(dict, attempts, m);
  }
}
