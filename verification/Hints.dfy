/** Generating hints (server/internal/game/hints.go): the scores, the branches of
    generateHints, and the in-place sort of the allowed words. */
module Hints {
  import opened Scoring
  import opened Letters
  import opened WordLists
  import opened HintFilters
  import opened HintMeaning
  import opened Ranking
  import opened Lex

  const MAX_HINTS := 5

  // ------------------------------------------------------------------ sums

  function Total(words: seq<string>, f: Scorer): int {
    if words == [] then 0 else Total(words[..|words| - 1], f) + f(words[|words| - 1])
  }

  function CopiesOf(c: char): Scorer { (w: string) => Copies(w, c, |w|) }
  function HasLetter(c: char): Scorer { (w: string) => if c in w then 1 else 0 }

  function LettersOf(words: seq<string>): set<char> {
    set w, c | w in words && c in w :: c
  }

  /** Sums v over the distinct letters among the first n of w. */
  function DistinctSum(w: string, v: char -> int, n: nat): int
    requires n <= |w|
  {
    if n == 0 then 0
    else DistinctSum(w, v, n - 1) + if w[n - 1] in w[..n - 1] then 0 else v(w[n - 1])
  }

  function ByLetters(v: char -> int): Scorer { (w: string) => DistinctSum(w, v, |w|) }
  function One(): char -> int { c => 1 }
  function Among(letters: set<char>): char -> int { c => if c in letters then 1 else 0 }
  function FrequencyIn(words: seq<string>): char -> int { c => Total(words, CopiesOf(c)) }

  lemma {:induction false} DistinctSumCong(w: string, v: char -> int, v': char -> int, n: nat)
    requires n <= |w| && forall c :: v(c) == v'(c)
    ensures DistinctSum(w, v, n) == DistinctSum(w, v', n)
  {
    if n > 0 {
      DistinctSumCong(w, v, v', n - 1);
    }
  }

  lemma {:induction false} TotalAppend(s: seq<string>, t: seq<string>, f: Scorer)
    ensures Total(s + t, f) == Total(s, f) + Total(t, f)
  {
    if t == [] {
      assert s + t == s;
    } else {
      assert (s + t)[..|s + t| - 1] == s + t[..|t| - 1];
      TotalAppend(s, t[..|t| - 1], f);
    }
  }

  lemma {:induction false} TotalWithout(t: seq<string>, i: nat, f: Scorer)
    requires i < |t|
    ensures var u := t[..i] + t[i + 1..];
      multiset(u) == multiset(t) - multiset{t[i]} && Total(t, f) == Total(u, f) + f(t[i])
  {
    assert t == t[..i] + [t[i]] + t[i + 1..];
    TotalAppend(t[..i], t[i + 1..], f);
    TotalAppend(t[..i], [t[i]], f);
    TotalAppend(t[..i] + [t[i]], t[i + 1..], f);
  }

  lemma {:induction false} TotalIgnoresOrder(s: seq<string>, t: seq<string>, f: Scorer)
    requires multiset(s) == multiset(t)
    ensures Total(s, f) == Total(t, f)
  {
    assert |s| == |multiset(s)| == |t|;
    if s != [] {
      assert s[0] in multiset(t);
      var i :| 0 <= i < |t| && t[i] == s[0];
      TotalWithout(s, 0, f);
      TotalWithout(t, i, f);
      TotalIgnoresOrder(s[..0] + s[1..], t[..i] + t[i + 1..], f);
    }
  }

  /** The loop that calculateFrequencyValue, countUniqueLetters and
      missingLettersScore share: one pass with a table of seen letters. */
  method SumDistinctLetters(word: string, v: char -> int) returns (val: int)
    requires LowerCase(word)
    ensures val == ByLetters(v)(word)
  {
    var seen := new bool[26](_ => false);
    val := 0;
    for i := 0 to |word|
      invariant forall c :: 'a' <= c <= 'z' ==> (seen[Slot(c)] <==> c in word[..i])
      invariant val == DistinctSum(word, v, i)
    {
      if !seen[Slot(word[i])] {
        val := val + v(word[i]);
        seen[Slot(word[i])] := true;
      }
      assert word[..i + 1] == word[..i] + [word[i]];
    }
  }

  method BuildCharacterFrequencyMap(words: seq<string>) returns (freq: map<char, int>)
    ensures forall c :: Freq(freq, c) == FrequencyIn(words)(c)
  {
    freq := map[];
    for k := 0 to |words|
      invariant forall c :: Freq(freq, c) == Total(words[..k], CopiesOf(c))
    {
      for i := 0 to |words[k]|
        invariant forall c :: Freq(freq, c) == Total(words[..k], CopiesOf(c)) + Copies(words[k], c, i)
      {
        freq := freq[words[k][i] := Freq(freq, words[k][i]) + 1];
      }
      assert words[..k + 1][..k] == words[..k];
    }
    assert words[..|words|] == words;
  }

  // ---------------------------------------------------- the letters at issue

  function Missing(words: seq<string>, letters: set<char>): set<char> {
    LettersOf(words) - letters
  }

  /** The letters that only one of the words has. */
  function Differing(words: seq<string>): set<char> {
    set c | c in LettersOf(words) && Total(words, HasLetter(c)) < 2
  }

  method FindMissingLetters(words: seq<string>, letters: set<char>) returns (result: set<char>)
    ensures result == Missing(words, letters)
  {
    result := {};
    for k := 0 to |words|
      invariant result == Missing(words[..k], letters)
    {
      for i := 0 to |words[k]|
        invariant result == Missing(words[..k] + [words[k][..i]], letters)
      {
        if words[k][i] !in letters {
          result := result + {words[k][i]};
        }
        assert words[k][..i + 1] == words[k][..i] + [words[k][i]];
        LettersOfAppend(words[..k], words[k][..i]);
        LettersOfAppend(words[..k], words[k][..i + 1]);
      }
      assert words[k][..|words[k]|] == words[k];
      assert words[..k + 1] == words[..k] + [words[k]];
    }
    assert words[..|words|] == words;
  }

  lemma {:induction false} LettersOfAppend(words: seq<string>, w: string)
    ensures LettersOf(words + [w]) == LettersOf(words) + set c | c in w
  {
    assert forall v :: v in words + [w] <==> v in words || v == w;
  }

  /** Counts a word once for each of its letters. */
  method CountWord(counts0: map<char, int>, word: string) returns (counts: map<char, int>)
    requires LowerCase(word)
    ensures counts.Keys == counts0.Keys + set c | c in word
    ensures forall c :: Freq(counts, c) == Freq(counts0, c) + HasLetter(c)(word)
  {
    counts := counts0;
    var seen := new bool[26](_ => false);
    for i := 0 to |word|
      invariant forall c :: 'a' <= c <= 'z' ==> (seen[Slot(c)] <==> c in word[..i])
      invariant counts.Keys == counts0.Keys + set c | c in word[..i]
      invariant forall c :: Freq(counts, c) == Freq(counts0, c) + if c in word[..i] then 1 else 0
    {
      assert word[..i + 1] == word[..i] + [word[i]];
      if !seen[Slot(word[i])] {
        counts := counts[word[i] := Freq(counts, word[i]) + 1];
        seen[Slot(word[i])] := true;
      }
    }
    assert word[..|word|] == word;
  }

  method FindDifferingLetters(words: seq<string>) returns (result: set<char>)
    requires forall w :: w in words ==> LowerCase(w)
    ensures result == Differing(words)
  {
    var counts: map<char, int> := map[];
    for k := 0 to |words|
      invariant counts.Keys == LettersOf(words[..k])
      invariant forall c :: Freq(counts, c) == Total(words[..k], HasLetter(c))
    {
      counts := CountWord(counts, words[k]);
      LettersOfAppend(words[..k], words[k]);
      assert words[..k + 1] == words[..k] + [words[k]];
      assert words[..k + 1][..k] == words[..k];
    }
    assert words[..|words|] == words;
    result := set c | c in counts && counts[c] < 2;
    assert forall c :: c in counts ==> Freq(counts, c) == counts[c];
  }

  method CalculateMaximumWordLength(words: array<string>) returns (max: nat)
    ensures max == MaxLength(words[..])
  {
    max := 0;
    for i := 0 to words.Length
      invariant max == MaxLength(words[..i])
    {
      if |words[i]| > max {
        max := |words[i]|;
      }
      assert words[..i + 1][..i] == words[..i];
    }
    assert words[..words.Length] == words[..];
  }

  function MaxLength(words: seq<string>): (m: nat)
    ensures forall w :: w in words ==> |w| <= m
    ensures words != [] ==> exists w :: w in words && |w| == m
    ensures words == [] ==> m == 0
  {
    if words == [] then 0
    else
      var m, w := MaxLength(words[..|words| - 1]), words[|words| - 1];
      assert w in words && forall v :: v in words[..|words| - 1] ==> v in words;
      if |w| > m then |w| else m
  }

  // ------------------------------------------------- what generateHints does

  function LettersWith(m: LetterMap, st: Status): set<char> {
    set c: char | IsLetter(c) && StatusOf(m, c) == st
  }

  function AllFrom(letters: set<char>): Filter {
    (w: string) => forall i :: 0 <= i < |w| ==> w[i] in letters
  }

  function NotAttempted(attempts: seq<Scored>): Filter {
    (w: string) => forall k :: 0 <= k < |attempts| ==> attempts[k].answer != w
  }

  /** Three quarters of the longest word, rounded down. */
  function MostOfAWord(dict: seq<string>): nat { MaxLength(dict) * 75 / 100 }

  /** The words that the rest of generateHints works from: untried letters only
      when much is placed early on, and otherwise what passes the three filters. */
  function Matches(dict: seq<string>, attempts: seq<Scored>, m: LetterMap): seq<string> {
    if UntriedWords(dict, m) == [] then Candidates(dict, attempts, m) else UntriedWords(dict, m)
  }

  function UntriedWords(dict: seq<string>, m: LetterMap): seq<string> {
    if |LettersWith(m, Unknown)| > 20 && |LettersWith(m, CorrectLocation)| >= MostOfAWord(dict)
    then SortBy(Keep(dict, AllFrom(LettersWith(m, Unknown))), ByLetters(One())) else []
  }

  /** What the filters index, if they are reached: every tile of every attempt, and the
      words that the first filter leaves. */
  ghost predicate Searchable(dict: seq<string>, attempts: seq<Scored>, m: LetterMap) {
    UntriedWords(dict, m) == [] ==>
      && (forall k :: 0 <= k < |attempts| ==> |attempts[k].answer| <= |attempts[k].result|)
      && (forall w :: w in dict && NoneOf(AbsentLetters(m))(w) ==> Readable(attempts, w))
  }

  /** The scores index a table of 26 by the letters of the words they compare. */
  ghost predicate Scorable(dict: seq<string>, attempts: seq<Scored>, m: LetterMap) {
    var matches := Matches(dict, attempts, m);
    && (|matches| > 1 ==> forall w :: w in matches ==> LowerCase(w))
    && (BranchFor(dict, matches, m).RankDictionary? ==> forall w :: w in dict ==> LowerCase(w))
  }

  datatype Branch = AsFound | RankDictionary(score: Scorer) | RankMatches(score: Scorer)

  function BranchFor(dict: seq<string>, matches: seq<string>, m: LetterMap): Branch {
    var placed := LettersWith(m, CorrectLocation);
    if |matches| <= 1 then AsFound
    else if |placed| >= MostOfAWord(dict) && |matches| >= MAX_HINTS - 1
    then RankDictionary(ByLetters(Among(Missing(matches, placed))))
    else if |placed| < MostOfAWord(dict) && |Differing(matches)| >= MAX_HINTS - 1
    then RankDictionary(ByLetters(Among(Differing(matches))))
    else RankMatches(ByLetters(FrequencyIn(matches)))
  }

  function Listed(dict: seq<string>, matches: seq<string>, m: LetterMap): seq<string> {
    match BranchFor(dict, matches, m)
    case AsFound => matches
    case RankDictionary(f) => SortBy(dict, f)
    case RankMatches(f) => SortBy(matches, f)
  }

  function FirstFew(words: seq<string>): seq<string> {
    if |words| > MAX_HINTS then words[..MAX_HINTS] else words
  }

  function HintsFor(dict: seq<string>, attempts: seq<Scored>, m: LetterMap): seq<string> {
    FirstFew(Keep(Listed(dict, Matches(dict, attempts, m), m), NotAttempted(attempts)))
  }

  /** The list of allowed words afterwards: one branch sorts it in place. */
  function ListAfter(dict: seq<string>, attempts: seq<Scored>, m: LetterMap): seq<string> {
    match BranchFor(dict, Matches(dict, attempts, m), m)
    case RankDictionary(f) => SortBy(dict, f)
    case _ => dict
  }

  // ------------------------------------------------------------- the methods

  method SortLetters(m: LetterMap)
      returns (correct: set<char>, absent: set<char>, present: set<char>, unknown: set<char>)
    ensures correct == LettersWith(m, CorrectLocation) && unknown == LettersWith(m, Unknown)
    ensures absent == AbsentLetters(m) && present == PresentLetters(m)
  {
    correct, absent, present, unknown := {}, {}, {}, {};
    for i := 0 to 26
      invariant correct == set c: char | IsLetter(c) && Slot(c) < i && StatusOf(m, c) == CorrectLocation
      invariant unknown == set c: char | IsLetter(c) && Slot(c) < i && StatusOf(m, c) == Unknown
      invariant absent == set c: char | IsLetter(c) && Slot(c) < i && ClassOf(StatusOf(m, c)) == Absent
      invariant present == set c: char | IsLetter(c) && Slot(c) < i && ClassOf(StatusOf(m, c)) == Present
    {
      var c := ('a' as int + i) as char;
      assert forall d: char :: IsLetter(d) && Slot(d) == i ==> d == c;
      match StatusOf(m, c) {
        case Unknown => unknown := unknown + {c};
        case NotPresent => absent := absent + {c};
        case WrongLocation => present := present + {c};
        case CorrectLocation => correct, present := correct + {c}, present + {c};
      }
    }
  }

  method Filtered(words: seq<string>, p: Filter) returns (result: seq<string>)
    ensures result == Keep(words, p)
  {
    result := [];
    for k := 0 to |words|
      invariant result == Keep(words[..k], p)
    {
      if p(words[k]) {
        result := result + [words[k]];
      }
      assert words[..k + 1][..k] == words[..k];
    }
    assert words[..|words|] == words;
  }

  method Sorted(words: seq<string>, f: Scorer) returns (result: seq<string>)
    ensures result == SortBy(words, f)
  {
    var a := new string[|words|](i requires 0 <= i < |words| => words[i]);
    assert a[..] == words;
    SortInPlace(a, f);
    result := a[..];
  }

  /** The three filters one after the other, each in its own loop. */
  method FilterDictionary(dict: array<string>, attempts: seq<Scored>, absent: set<char>, present: set<char>)
      returns (words: seq<string>)
    requires forall k :: 0 <= k < |attempts| ==> |attempts[k].answer| <= |attempts[k].result|
    requires forall w :: w in dict[..] && NoneOf(absent)(w) ==> Readable(attempts, w)
    ensures words == Keep(Keep(Keep(dict[..], NoneOf(absent)), FitsPlaces(attempts)), AllOf(present))
  {
    words := FilterWordsWithLettersNotPresent(dict[..], absent);
    assert forall j :: 0 <= j < |words| ==> words[j] in words;
    words := FilterWordsWithLettersInWrongLocations(words, attempts);
    words := FilterWordsWithoutLetters(words, present);
  }

  method FindMatches(dict: array<string>, attempts: seq<Scored>, m: LetterMap)
      returns (words: seq<string>, correct: set<char>, most: nat)
    requires Searchable(dict[..], attempts, m)
    ensures words == Matches(dict[..], attempts, m)
    ensures correct == LettersWith(m, CorrectLocation) && most == MostOfAWord(dict[..])
  {
    var absent, present, unknown;
    correct, absent, present, unknown := SortLetters(m);
    var longest := CalculateMaximumWordLength(dict);
    most := longest * 75 / 100;
    words := [];
    if |unknown| > 20 && |correct| >= most {
      words := Filtered(dict[..], AllFrom(unknown));
      words := Sorted(words, ByLetters(One()));
    }
    if words == [] {
      words := FilterDictionary(dict, attempts, absent, present);
    }
  }

  /** The branches that rank: two of them sort the allowed words themselves. */
  method RankWords(dict: array<string>, matches: seq<string>, correct: set<char>, most: nat, ghost m: LetterMap)
      returns (words: seq<string>)
    requires correct == LettersWith(m, CorrectLocation) && most == MostOfAWord(dict[..])
    requires |matches| > 1 ==> forall w :: w in matches ==> LowerCase(w)
    modifies dict
    ensures words == Listed(old(dict[..]), matches, m)
    ensures dict[..] == if BranchFor(old(dict[..]), matches, m).RankDictionary? then words else old(dict[..])
  {
    if |matches| <= 1 {
      return matches;
    }
    var missing := FindMissingLetters(matches, correct);
    var differing := FindDifferingLetters(matches);
    if |correct| >= most && |matches| >= MAX_HINTS - 1 {
      SortInPlace(dict, ByLetters(Among(missing)));
      words := dict[..];
    } else if |correct| < most && |differing| >= MAX_HINTS - 1 {
      SortInPlace(dict, ByLetters(Among(differing)));
      words := dict[..];
    } else {
      words := Sorted(matches, ByLetters(FrequencyIn(matches)));
    }
  }

  method GenerateHints(dict: array<string>, attempts: seq<Scored>, m: LetterMap) returns (hints: seq<string>)
    requires Searchable(dict[..], attempts, m) && Scorable(dict[..], attempts, m)
    modifies dict
    ensures hints == HintsFor(old(dict[..]), attempts, m)
    ensures dict[..] == ListAfter(old(dict[..]), attempts, m)
  {
    var matches, correct, most := FindMatches(dict, attempts, m);
    var words := RankWords(dict, matches, correct, most, m);
    words := Filtered(words, NotAttempted(attempts));
    hints := FirstFew(words);
  }

  // ------------------------------------------------------------ the theorems

  lemma {:induction false} SortedMembers(s: seq<string>, f: Scorer)
    ensures forall w :: w in SortBy(s, f) <==> w in s
  {
    SortByRanks(s, f);
    assert forall w :: w in SortBy(s, f) <==> w in multiset(SortBy(s, f));
    assert forall w :: w in s <==> w in multiset(s);
  }

  lemma {:induction false} MatchesAreAllowed(dict: seq<string>, attempts: seq<Scored>, m: LetterMap)
    ensures forall w :: w in Matches(dict, attempts, m) ==> w in dict
  {
    SortedMembers(Keep(dict, AllFrom(LettersWith(m, Unknown))), ByLetters(One()));
  }

  lemma {:induction false} ListedAreAllowed(dict: seq<string>, attempts: seq<Scored>, m: LetterMap)
    ensures forall w :: w in Listed(dict, Matches(dict, attempts, m), m) ==> w in dict
  {
    MatchesAreAllowed(dict, attempts, m);
    match BranchFor(dict, Matches(dict, attempts, m), m)
    case AsFound =>
    case RankDictionary(f) => SortedMembers(dict, f);
    case RankMatches(f) => SortedMembers(Matches(dict, attempts, m), f);
  }

  lemma {:induction false} KeepRanked(s: seq<string>, p: Filter, f: Scorer)
    requires Ranked(s, f)
    ensures Ranked(Keep(s, p), f)
  {
    if s != [] {
      var n := |s| - 1;
      KeepRanked(s[..n], p, f);
      forall w | w in Keep(s[..n], p) ensures !Before(f, s[n], w) {
        var i :| 0 <= i < n && s[..n][i] == w;
      }
      if p(s[n]) {
        RankedAppend(Keep(s[..n], p), s[n], f);
      }
    }
  }

  lemma {:induction false} FirstFewAmong(s: seq<string>)
    ensures |FirstFew(s)| <= MAX_HINTS && forall w :: w in FirstFew(s) ==> w in s
  {
    assert forall i :: 0 <= i < |FirstFew(s)| ==> FirstFew(s)[i] == s[i];
  }

  /** Hints are at most five allowed words, none of them tried before. */
  lemma {:induction false} HintsRespectTheGame(dict: seq<string>, attempts: seq<Scored>, m: LetterMap)
    ensures |HintsFor(dict, attempts, m)| <= 5
    ensures forall w :: w in HintsFor(dict, attempts, m) ==>
      w in dict && forall k :: 0 <= k < |attempts| ==> attempts[k].answer != w
  {
    ListedAreAllowed(dict, attempts, m);
    FirstFewAmong(Keep(Listed(dict, Matches(dict, attempts, m), m), NotAttempted(attempts)));
  }

  /** Hints best first; if w is not among them there are five, each with a higher score
      than w or, if it is the same, earlier in the alphabet. */
  predicate RankedFirst(hints: seq<string>, f: Scorer, w: string) {
    && BestFirst(hints, f)
    && (w !in hints ==> |hints| == 5 && forall i :: 0 <= i < |hints| ==>
          f(w) <= f(hints[i]) && (f(w) == f(hints[i]) ==> Less(hints[i], w)))
  }

  lemma {:induction false} FirstFewAreBest(s: seq<string>, f: Scorer, w: string)
    requires Ranked(s, f) && w in s
    ensures RankedFirst(FirstFew(s), f, w)
  {
    var j :| 0 <= j < |s| && s[j] == w;
    assert j < |FirstFew(s)| ==> FirstFew(s)[j] == w;
    RankedIffBestFirst(s, f);
    assert forall i :: 0 <= i < |FirstFew(s)| ==> FirstFew(s)[i] == s[i];
  }

  /** When a branch ranks words, the hints stand in that order and no word left
      out beats one of them. */
  lemma {:induction false} HintsAreTheBest(dict: seq<string>, attempts: seq<Scored>, m: LetterMap, w: string)
    ensures var matches := Matches(dict, attempts, m);
      var branch, hints := BranchFor(dict, matches, m), HintsFor(dict, attempts, m);
      branch != AsFound && w in Listed(dict, matches, m) && NotAttempted(attempts)(w) ==>
        RankedFirst(hints, branch.score, w)
  {
    var matches := Matches(dict, attempts, m);
    if BranchFor(dict, matches, m) != AsFound && w in Listed(dict, matches, m) && NotAttempted(attempts)(w) {
      var listed, f := Listed(dict, matches, m), BranchFor(dict, matches, m).score;
      SortByRanks(dict, f);
      SortByRanks(matches, f);
      KeepRanked(listed, NotAttempted(attempts), f);
      FirstFewAreBest(Keep(listed, NotAttempted(attempts)), f, w);
    }
  }

  lemma {:induction false} KeepPermuted(s: seq<string>, t: seq<string>, p: Filter)
    requires multiset(s) == multiset(t)
    ensures multiset(Keep(s, p)) == multiset(Keep(t, p))
  {
    forall w ensures multiset(Keep(s, p))[w] == multiset(Keep(t, p))[w] {
      KeepMultiset(s, p, w);
      KeepMultiset(t, p, w);
    }
  }

  lemma {:induction false} SameWords(s: seq<string>, t: seq<string>)
    requires multiset(s) == multiset(t)
    ensures |s| == |t| && LettersOf(s) == LettersOf(t) && MaxLength(s) == MaxLength(t)
    ensures Differing(s) == Differing(t) && forall c :: FrequencyIn(s)(c) == FrequencyIn(t)(c)
  {
    assert |s| == |multiset(s)| == |t|;
    assert forall w :: w in s <==> w in multiset(s);
    assert forall w :: w in t <==> w in multiset(t);
    forall c
      ensures Total(s, HasLetter(c)) == Total(t, HasLetter(c))
      ensures Total(s, CopiesOf(c)) == Total(t, CopiesOf(c))
    {
      TotalIgnoresOrder(s, t, HasLetter(c));
      TotalIgnoresOrder(s, t, CopiesOf(c));
    }
  }

  lemma {:induction false} MatchesPermuted(dict: seq<string>, dict': seq<string>, attempts: seq<Scored>, m: LetterMap)
    requires multiset(dict) == multiset(dict')
    ensures multiset(Matches(dict, attempts, m)) == multiset(Matches(dict', attempts, m))
  {
    SameWords(dict, dict');
    var untried := AllFrom(LettersWith(m, Unknown));
    KeepPermuted(dict, dict', untried);
    SortIgnoresOrder(Keep(dict, untried), Keep(dict', untried), ByLetters(One()), ByLetters(One()));
    CandidatesKeepPassing(dict, attempts, m);
    CandidatesKeepPassing(dict', attempts, m);
    KeepPermuted(dict, dict', Passes(attempts, m));
  }

  lemma {:induction false} SameFrequencyScore(s: seq<string>, t: seq<string>)
    requires multiset(s) == multiset(t)
    ensures forall w :: ByLetters(FrequencyIn(s))(w) == ByLetters(FrequencyIn(t))(w)
  {
    SameWords(s, t);
    forall w ensures ByLetters(FrequencyIn(s))(w) == ByLetters(FrequencyIn(t))(w) {
      DistinctSumCong(w, FrequencyIn(s), FrequencyIn(t), |w|);
    }
  }

  lemma {:induction false} SameBranch(dict: seq<string>, dict': seq<string>, s: seq<string>, t: seq<string>,
                                      m: LetterMap)
    requires multiset(dict) == multiset(dict') && multiset(s) == multiset(t)
    ensures var b, b' := BranchFor(dict, s, m), BranchFor(dict', t, m);
      if b.RankMatches? then b'.RankMatches? && forall w :: b.score(w) == b'.score(w) else b == b'
  {
    assert MostOfAWord(dict) == MostOfAWord(dict') by { SameWords(dict, dict'); }
    assert |s| == |t| && Differing(s) == Differing(t) && LettersOf(s) == LettersOf(t) by { SameWords(s, t); }
    SameFrequencyScore(s, t);
  }

  lemma {:induction false} ListedPermuted(dict: seq<string>, dict': seq<string>, s: seq<string>, t: seq<string>,
      m: LetterMap)
    requires multiset(dict) == multiset(dict') && multiset(s) == multiset(t)
    ensures Listed(dict, s, m) == Listed(dict', t, m)
  {
    SameBranch(dict, dict', s, t, m);
    match BranchFor(dict, s, m)
    case AsFound =>
      assert |s| == |multiset(s)| == |t|;
      assert |s| == 1 ==> s[0] in multiset(t);
    case RankDictionary(f) =>
      SortIgnoresOrder(dict, dict', f, f);
    case RankMatches(f) =>
      SortIgnoresOrder(s, t, f, BranchFor(dict', t, m).score);
  }

  /** Which hints are given does not depend on the order of the allowed words.  So
      the in-place sort that a call leaves behind cannot change a later answer. */
  lemma {:induction false} HintsIgnoreListOrder(dict: seq<string>, dict': seq<string>, attempts: seq<Scored>,
                                                m: LetterMap)
    requires multiset(dict) == multiset(dict')
    ensures HintsFor(dict, attempts, m) == HintsFor(dict', attempts, m)
  {
    MatchesPermuted(dict, dict', attempts, m);
    ListedPermuted(dict, dict', Matches(dict, attempts, m), Matches(dict', attempts, m), m);
  }

  lemma {:induction false} ListOnlyPermuted(dict: seq<string>, attempts: seq<Scored>, m: LetterMap)
    ensures multiset(ListAfter(dict, attempts, m)) == multiset(dict)
  {
    match BranchFor(dict, Matches(dict, attempts, m), m)
    case RankDictionary(f) => SortByRanks(dict, f);
    case _ =>
  }
}
