/** What the three hint filters mean.  A word is consistent when it would have
    scored every guess as recorded; the filters never score anything again, yet
    keep every consistent word, and exactly those when no guess repeats a letter. */
module HintMeaning {
  import opened Scoring
  import opened Letters
  import opened WordLists
  import opened HintFilters

  predicate LowerCase(w: string) {
    forall i :: 0 <= i < |w| ==> IsLetter(w[i])
  }

  predicate NoRepeats(w: string) {
    forall i, j :: 0 <= i < j < |w| ==> w[i] != w[j]
  }

  /** The attempts that a known-answer game records for these guesses. */
  function Recordings(guesses: seq<string>, a: string): (s: seq<Scored>)
    requires SameLengths(guesses, a)
    ensures |s| == |guesses|
  {
    seq(|guesses|, k requires 0 <= k < |guesses| => Scored(guesses[k], Score(guesses[k], a)))
  }

  /** The map m knows of every letter whether it is absent, present or untried:
      true of the maps of both modes. */
  ghost predicate Summarises(m: LetterMap, guesses: seq<string>, a: string)
    requires SameLengths(guesses, a)
  {
    forall c :: IsLetter(c) ==> ClassOf(StatusOf(m, c)) == ClassOf(Knowledge(guesses, a, c))
  }

  lemma {:induction false} BothModesSummarise(guesses: seq<string>, a: string)
    requires SameLengths(guesses, a)
    ensures Summarises(KnownMap(guesses, a), guesses, a)
    ensures Summarises(UnknownMap(guesses, a), guesses, a)
    ensures AbsentLetters(KnownMap(guesses, a)) == AbsentLetters(UnknownMap(guesses, a))
    ensures PresentLetters(KnownMap(guesses, a)) == PresentLetters(UnknownMap(guesses, a))
  {
    forall c | IsLetter(c)
      ensures ClassOf(StatusOf(KnownMap(guesses, a), c)) == ClassOf(Knowledge(guesses, a, c))
      ensures ClassOf(StatusOf(UnknownMap(guesses, a), c)) == ClassOf(Knowledge(guesses, a, c))
    {
      KnownMapIsKnowledge(guesses, a, c);
      UnknownMapClass(guesses, a, c);
    }
  }

  predicate WouldScore(w: string, s: Scored) {
    |s.answer| == |w| && Score(s.answer, w) == s.result
  }

  function Consistent(attempts: seq<Scored>): Filter {
    (w: string) => forall k :: 0 <= k < |attempts| ==> WouldScore(w, attempts[k])
  }

  // ------------------------------------------------------------- one guess

  /** What the letter filters say about w, for the letters of one guess. */
  predicate LettersAgree(g: string, a: string, w: string) {
    forall i :: 0 <= i < |g| ==> (g[i] in w <==> g[i] in a)
  }

  predicate PlacesAgree(g: string, a: string, w: string)
    requires |g| == |a|
  {
    forall i :: 0 <= i < |w| ==> FitsTile(w, Scored(g, Score(g, a)), i)
  }

  predicate Repeated(g: string, c: char) {
    exists i, j :: 0 <= i < j < |g| && g[i] == g[j] == c
  }

  /** What the filters do not look at, for a letter the guess repeats: the number
      of its coloured tiles, and that its grey tiles are not where w has it. */
  ghost predicate RepeatAgrees(g: string, r: seq<Status>, w: string, c: char)
    requires |g| == |r| == |w|
  {
    && Marked(g, r, c) == Min(multiset(g)[c], multiset(w)[c])
    && forall i :: 0 <= i < |g| && g[i] == c && r[i] == NotPresent ==> w[i] != c
  }

  lemma {:induction false} ScoreImpliesAgreement(g: string, a: string, w: string)
    requires |g| == |a| == |w| && Score(g, w) == Score(g, a)
    ensures LettersAgree(g, a, w) && PlacesAgree(g, a, w)
    ensures forall c :: RepeatAgrees(g, Score(g, a), w, c)
  {
    ScoreMeetsSpec(g, a);
    ScoreMeetsSpec(g, w);
    forall i | 0 <= i < |g| ensures g[i] in w <==> g[i] in a {
      ScoreReveals(g, a, g[i]);
      ScoreReveals(g, w, g[i]);
    }
  }

  lemma {:induction false} SingleCopy(g: string, c: char, i: nat, n: nat)
    requires i < |g| && g[i] == c && !Repeated(g, c) && n <= |g|
    ensures Copies(g, c, n) == if i < n then 1 else 0
  {
    if n > 0 {
      SingleCopy(g, c, i, n - 1);
    }
  }

  lemma {:induction false} SingleTile(g: string, r: seq<Status>, c: char, st: Status, i: nat, n: nat)
    requires i < |g| == |r| && g[i] == c && !Repeated(g, c) && n <= |g|
    ensures Tiles(g, r, c, st, n) == if i < n && r[i] == st then 1 else 0
  {
    if n > 0 {
      SingleTile(g, r, c, st, i, n - 1);
    }
  }

  lemma {:induction false} AgreementImpliesScore(g: string, a: string, w: string)
    requires |g| == |a| == |w| && LettersAgree(g, a, w) && PlacesAgree(g, a, w)
    requires forall c :: Repeated(g, c) ==> RepeatAgrees(g, Score(g, a), w, c)
    ensures Score(g, w) == Score(g, a)
  {
    var r := Score(g, a);
    ScoreMeetsSpec(g, a);
    forall c ensures Marked(g, r, c) == Min(multiset(g)[c], multiset(w)[c]) {
      if c in g && !Repeated(g, c) {
        var i :| 0 <= i < |g| && g[i] == c;
        SingleCopy(g, c, i, |g|);
        CopiesIsMultiplicity(g, c, |g|);
        assert g[i] in w <==> g[i] in a;
      }
    }
    forall i | 0 <= i < |g| ensures r[i] == CorrectLocation <==> g[i] == w[i] {
      assert FitsTile(w, Scored(g, r), i);
      if g[i] == w[i] && !Repeated(g, g[i]) {
        SingleTile(g, r, g[i], CorrectLocation, i, |g|);
        SingleTile(g, r, g[i], WrongLocation, i, |g|);
        SingleCopy(g, g[i], i, |g|);
        CopiesIsMultiplicity(g, g[i], |g|);
      }
    }
    SpecIsUnique(g, w, r);
  }

  // ------------------------------------------------------------ whole runs

  ghost predicate RepeatsAgree(attempts: seq<Scored>, w: string)
    requires forall k :: 0 <= k < |attempts| ==> |attempts[k].answer| == |attempts[k].result| == |w|
  {
    forall k, c :: 0 <= k < |attempts| && Repeated(attempts[k].answer, c) ==>
      RepeatAgrees(attempts[k].answer, attempts[k].result, w, c)
  }

  lemma {:induction false} LetterFiltersAgree(guesses: seq<string>, a: string, m: LetterMap, w: string)
    requires SameLengths(guesses, a) && Summarises(m, guesses, a)
    ensures (forall k :: 0 <= k < |guesses| ==> LettersAgree(guesses[k], a, w)) ==>
      NoneOf(AbsentLetters(m))(w) && AllOf(PresentLetters(m))(w)
    ensures
      && (forall k :: 0 <= k < |guesses| ==> LowerCase(guesses[k]))
      && NoneOf(AbsentLetters(m))(w) && AllOf(PresentLetters(m))(w)
      ==> forall k :: 0 <= k < |guesses| ==> LettersAgree(guesses[k], a, w)
  {
    if forall k :: 0 <= k < |guesses| ==> LettersAgree(guesses[k], a, w) {
      forall c | c in AbsentLetters(m) || c in PresentLetters(m) ensures c in w <==> c in a {
        var k :| 0 <= k < |guesses| && c in guesses[k];
        assert LettersAgree(guesses[k], a, w);
        var i :| 0 <= i < |guesses[k]| && guesses[k][i] == c;
      }
    }
    if (forall k :: 0 <= k < |guesses| ==> LowerCase(guesses[k])) &&
       NoneOf(AbsentLetters(m))(w) && AllOf(PresentLetters(m))(w) {
      forall k, i | 0 <= k < |guesses| && 0 <= i < |guesses[k]|
        ensures guesses[k][i] in w <==> guesses[k][i] in a
      {
        var c := guesses[k][i];
        assert LowerCase(guesses[k]) && c in guesses[k];
        assert c in AbsentLetters(m) || c in PresentLetters(m);
      }
    }
  }

  lemma {:induction false} PlaceFilterAgrees(guesses: seq<string>, a: string, w: string)
    requires SameLengths(guesses, a)
    ensures FitsPlaces(Recordings(guesses, a))(w) <==>
      forall k :: 0 <= k < |guesses| ==> PlacesAgree(guesses[k], a, w)
  {
    var attempts := Recordings(guesses, a);
    if FitsPlaces(attempts)(w) {
      forall k, i | 0 <= k < |guesses| && 0 <= i < |w|
        ensures FitsTile(w, Scored(guesses[k], Score(guesses[k], a)), i)
      {
        assert FitsTile(w, attempts[k], i);
      }
    }
    if forall k :: 0 <= k < |guesses| ==> PlacesAgree(guesses[k], a, w) {
      forall k, i | 0 <= k < |attempts| && 0 <= i < |w| ensures FitsTile(w, attempts[k], i) {
        assert PlacesAgree(guesses[k], a, w);
      }
    }
  }

  /** Soundness, repeated letters allowed: a consistent word passes the filters.
      The answer itself always does. */
  lemma {:induction false} ConsistentWordsPass(guesses: seq<string>, a: string, m: LetterMap, w: string)
    requires SameLengths(guesses, a) && Summarises(m, guesses, a)
    ensures Consistent(Recordings(guesses, a))(w) ==> Passes(Recordings(guesses, a), m)(w)
    ensures Passes(Recordings(guesses, a), m)(a)
  {
    var attempts := Recordings(guesses, a);
    forall v | Consistent(attempts)(v) ensures Passes(attempts, m)(v) {
      forall k | 0 <= k < |guesses| ensures LettersAgree(guesses[k], a, v) && PlacesAgree(guesses[k], a, v) {
        assert WouldScore(v, attempts[k]);
        ScoreImpliesAgreement(guesses[k], a, v);
      }
      LetterFiltersAgree(guesses, a, m, v);
      PlaceFilterAgrees(guesses, a, v);
    }
    assert Consistent(attempts)(a) by {
      assert forall k :: 0 <= k < |attempts| ==> WouldScore(a, attempts[k]);
    }
  }

  /** Exactly what the filters miss: a word that passes them is consistent iff it
      also agrees on the letters some guess repeats. */
  lemma {:induction false} ConsistentIffPassesAndRepeatsAgree(guesses: seq<string>, a: string, m: LetterMap, w: string)
    requires SameLengths(guesses, a) && Summarises(m, guesses, a) && |w| == |a|
    requires forall k :: 0 <= k < |guesses| ==> LowerCase(guesses[k])
    ensures Consistent(Recordings(guesses, a))(w) <==>
      Passes(Recordings(guesses, a), m)(w) && RepeatsAgree(Recordings(guesses, a), w)
  {
    var attempts := Recordings(guesses, a);
    ConsistentWordsPass(guesses, a, m, w);
    if Consistent(attempts)(w) {
      forall k, c | 0 <= k < |attempts| && Repeated(attempts[k].answer, c)
        ensures RepeatAgrees(attempts[k].answer, attempts[k].result, w, c)
      {
        assert WouldScore(w, attempts[k]);
        ScoreImpliesAgreement(guesses[k], a, w);
      }
    }
    if Passes(attempts, m)(w) && RepeatsAgree(attempts, w) {
      LetterFiltersAgree(guesses, a, m, w);
      PlaceFilterAgrees(guesses, a, w);
      forall k | 0 <= k < |attempts| ensures WouldScore(w, attempts[k]) {
        assert attempts[k].answer == guesses[k];
        AgreementImpliesScore(guesses[k], a, w);
      }
    }
  }

  /** When no guess repeats a letter the cheap pipeline keeps exactly the words
      that re-scoring every guess would keep, in the same order. */
  lemma {:induction false} FiltersAreExact(words: seq<string>, guesses: seq<string>, a: string, m: LetterMap)
    requires SameLengths(guesses, a) && Summarises(m, guesses, a) && SameLengths(words, a)
    requires forall k :: 0 <= k < |guesses| ==> LowerCase(guesses[k]) && NoRepeats(guesses[k])
    ensures Candidates(words, Recordings(guesses, a), m) == Keep(words, Consistent(Recordings(guesses, a)))
  {
    var attempts := Recordings(guesses, a);
    CandidatesKeepPassing(words, attempts, m);
    forall w | w in words ensures Passes(attempts, m)(w) <==> Consistent(attempts)(w) {
      assert forall k :: 0 <= k < |attempts| ==> NoRepeats(attempts[k].answer);
      ConsistentIffPassesAndRepeatsAgree(guesses, a, m, w);
    }
    KeepCong(words, Passes(attempts, m), Consistent(attempts));
  }

  lemma {:induction false} GreyCopyOverlooked()
    ensures LettersAgree("aad", "abc", "aaz") && PlacesAgree("aad", "abc", "aaz")
    ensures Score("aad", "aaz") != Score("aad", "abc")
  {
    assert Copies("abc", 'a', 2) == 1 && Greens("aad", "abc", 'a', 2) == 1;
    assert Copies("abc", 'd', 2) == 0 && Greens("aad", "abc", 'd', 2) == 0;
    assert Spare("aad", "abc", 'a') == 0 && Spare("aad", "abc", 'd') == 0;
    assert Tile("aad", "abc", 1) == NotPresent && Tile("aad", "abc", 2) == NotPresent;
    assert Score("aad", "aaz")[1] == CorrectLocation;
  }

  /** What the filters look at decides, after one guess. */
  lemma {:induction false} AgreeingWordStays(g: string, a: string, w: string)
    requires |g| == |a| && LettersAgree(g, a, w) && PlacesAgree(g, a, w)
    ensures w in Candidates([w], Recordings([g], a), KnownMap([g], a))
  {
    var m := KnownMap([g], a);
    BothModesSummarise([g], a);
    LetterFiltersAgree([g], a, m, w);
    PlaceFilterAgrees([g], a, w);
    CandidatesKeepPassing([w], Recordings([g], a), m);
  }

  lemma {:induction false} NotConsistentAfterOne(g: string, a: string, w: string)
    requires |g| == |a| == |w| && Score(g, w) != Score(g, a)
    ensures !Consistent(Recordings([g], a))(w)
  {
    assert !WouldScore(w, Recordings([g], a)[0]);
  }

  /** With a repeated letter the pipeline may keep a word that re-scoring rejects. */
  lemma {:induction false} RepeatedLettersEscape()
    ensures "aaz" in Candidates(["aaz"], Recordings(["aad"], "abc"), KnownMap(["aad"], "abc"))
    ensures !Consistent(Recordings(["aad"], "abc"))("aaz")
  {
    GreyCopyOverlooked();
    AgreeingWordStays("aad", "abc", "aaz");
    NotConsistentAfterOne("aad", "abc", "aaz");
  }

  lemma {:induction false} LettersStaySettled(guesses: seq<string>, g: string, a: string, m: LetterMap, m': LetterMap)
    requires SameLengths(guesses + [g], a) && SameLengths(guesses, a)
    requires Summarises(m, guesses, a) && Summarises(m', guesses + [g], a)
    ensures AbsentLetters(m) <= AbsentLetters(m') && PresentLetters(m) <= PresentLetters(m')
  {
    assert (guesses + [g])[..|guesses + [g]| - 1] == guesses;
    forall c | IsLetter(c) && Guessed(guesses, c) ensures Guessed(guesses + [g], c) {
      GuessedStep(guesses + [g], c);
    }
  }

  lemma {:induction false} PlacesStaySettled(attempts: seq<Scored>, s: Scored, w: string)
    ensures FitsPlaces(attempts + [s])(w) ==> FitsPlaces(attempts)(w)
  {
    if FitsPlaces(attempts + [s])(w) {
      forall k, i | 0 <= k < |attempts| && 0 <= i < |w| ensures FitsTile(w, attempts[k], i) {
        assert FitsTile(w, (attempts + [s])[k], i);
      }
    }
  }

  /** A further attempt only removes candidates. */
  lemma {:induction false} CandidatesShrink(words: seq<string>, guesses: seq<string>, g: string, a: string,
      m: LetterMap, m': LetterMap)
    requires SameLengths(guesses + [g], a) && SameLengths(guesses, a)
    requires Summarises(m, guesses, a) && Summarises(m', guesses + [g], a)
    ensures Candidates(words, Recordings(guesses + [g], a), m') ==
            Keep(Candidates(words, Recordings(guesses, a), m), Passes(Recordings(guesses + [g], a), m'))
  {
    var before, after := Recordings(guesses, a), Recordings(guesses + [g], a);
    CandidatesKeepPassing(words, before, m);
    CandidatesKeepPassing(words, after, m');
    LettersStaySettled(guesses, g, a, m, m');
    assert (guesses + [g])[|guesses|] == g;
    assert after == before + [Scored(g, Score(g, a))];
    forall w | w in words ensures Passes(after, m')(w) ==> Passes(before, m)(w) {
      PlacesStaySettled(before, Scored(g, Score(g, a)), w);
    }
    KeepAnd(words, Passes(before, m), Passes(after, m'), Passes(after, m'));
  }
}
