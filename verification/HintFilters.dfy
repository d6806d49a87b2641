/** The three dictionary filters behind a hint (server/internal/game/hints.go):
    what each decides about a word, and its loop. */
module HintFilters {
  import opened Scoring
  import opened Letters
  import opened WordLists

  // ------------------------------------------------ what each filter decides

  function NoneOf(letters: set<char>): Filter {
    (w: string) => forall i :: 0 <= i < |w| ==> w[i] !in letters
  }

  function AllOf(letters: set<char>): Filter {
    (w: string) => forall c :: c in letters ==> c in w
  }

  predicate FitsTile(w: string, s: Scored, i: nat) {
    i < |s.answer| && i < |s.result| && i < |w| ==>
      && (s.result[i] == CorrectLocation ==> w[i] == s.answer[i])
      && (s.result[i] == WrongLocation ==> w[i] != s.answer[i])
  }

  function FitsPlaces(attempts: seq<Scored>): Filter {
    (w: string) => forall k, i :: 0 <= k < |attempts| && 0 <= i < |w| ==> FitsTile(w, attempts[k], i)
  }

  function AbsentLetters(m: LetterMap): set<char> {
    set c: char | IsLetter(c) && ClassOf(StatusOf(m, c)) == Absent
  }

  function PresentLetters(m: LetterMap): set<char> {
    set c: char | IsLetter(c) && ClassOf(StatusOf(m, c)) == Present
  }

  /** The three filters in the order the program applies them. */
  function Candidates(words: seq<string>, attempts: seq<Scored>, m: LetterMap): seq<string> {
    Keep(Keep(Keep(words, NoneOf(AbsentLetters(m))), FitsPlaces(attempts)), AllOf(PresentLetters(m)))
  }

  function Passes(attempts: seq<Scored>, m: LetterMap): Filter {
    (w: string) => NoneOf(AbsentLetters(m))(w) && FitsPlaces(attempts)(w) && AllOf(PresentLetters(m))(w)
  }

  lemma {:induction false} CandidatesKeepPassing(words: seq<string>, attempts: seq<Scored>, m: LetterMap)
    ensures Candidates(words, attempts, m) == Keep(words, Passes(attempts, m))
  {
    var p, q, r := NoneOf(AbsentLetters(m)), FitsPlaces(attempts), AllOf(PresentLetters(m));
    var pq: Filter := w => p(w) && q(w);
    KeepAnd(words, p, q, pq);
    KeepAnd(words, pq, r, Passes(attempts, m));
  }

  // ------------------------------------------------------- the filter loops

  method HasLetterFrom(word: string, letters: set<char>) returns (found: bool)
    ensures found <==> !NoneOf(letters)(word)
  {
    for i := 0 to |word|
      invariant forall j :: 0 <= j < i ==> word[j] !in letters
    {
      if word[i] in letters {
        return true;
      }
    }
    return false;
  }

  method FilterWordsWithLettersNotPresent(words: seq<string>, letters: set<char>) returns (result: seq<string>)
    ensures result == Keep(words, NoneOf(letters))
  {
    result := [];
    for k := 0 to |words|
      invariant result == Keep(words[..k], NoneOf(letters))
    {
      var found := HasLetterFrom(words[k], letters);
      if !found {
        result := result + [words[k]];
      }
      assert words[..k + 1][..k] == words[..k];
    }
    assert words[..|words|] == words;
  }

  /** The loop over the letters runs in no fixed order, as over a Go map. */
  method HasAllLetters(word: string, letters: set<char>) returns (all: bool)
    ensures all <==> AllOf(letters)(word)
  {
    var todo := letters;
    while todo != {}
      invariant todo <= letters && forall c :: c in letters - todo ==> c in word
      decreases todo
    {
      var c :| c in todo;
      if c !in word {
        return false;
      }
      todo := todo - {c};
    }
    return true;
  }

  method FilterWordsWithoutLetters(words: seq<string>, letters: set<char>) returns (result: seq<string>)
    ensures result == Keep(words, AllOf(letters))
  {
    result := [];
    for k := 0 to |words|
      invariant result == Keep(words[..k], AllOf(letters))
    {
      var all := HasAllLetters(words[k], letters);
      if all {
        result := result + [words[k]];
      }
      assert words[..k + 1][..k] == words[..k];
    }
    assert words[..|words|] == words;
  }

  type PlaceMap = map<char, seq<nat>>

  ghost predicate Recorded(m: PlaceMap, c: char, i: nat) {
    c in m && i in m[c]
  }

  ghost predicate HasTileAt(s: Scored, c: char, i: nat, st: Status) {
    i < |s.answer| && i < |s.result| && s.answer[i] == c && s.result[i] == st
  }

  ghost predicate Shown(attempts: seq<Scored>, c: char, i: nat, st: Status) {
    exists k :: 0 <= k < |attempts| && HasTileAt(attempts[k], c, i, st)
  }

  /** The places that this many whole attempts and this many tiles of the next
      one show for a letter. */
  ghost predicate ShownSoFar(attempts: seq<Scored>, n: nat, t: nat, c: char, i: nat, st: Status)
    requires n <= |attempts|
  {
    Shown(attempts[..n], c, i, st) || (n < |attempts| && i < t && HasTileAt(attempts[n], c, i, st))
  }

  function Note(m: PlaceMap, c: char, i: nat): PlaceMap {
    if c !in m then m[c := [i]] else if i in m[c] then m else m[c := m[c] + [i]]
  }

  ghost predicate NotesAre(m: PlaceMap, attempts: seq<Scored>, n: nat, t: nat, st: Status)
    requires n <= |attempts|
  {
    forall c, i: nat :: Recorded(m, c, i) <==> ShownSoFar(attempts, n, t, c, i, st)
  }

  lemma {:induction false} NextAttempt(m: PlaceMap, attempts: seq<Scored>, n: nat, st: Status)
    requires n < |attempts| && |attempts[n].answer| <= |attempts[n].result|
    requires NotesAre(m, attempts, n, |attempts[n].answer|, st)
    ensures NotesAre(m, attempts, n + 1, 0, st)
  {
    forall c, i: nat
      ensures Shown(attempts[..n + 1], c, i, st) <==>
              Shown(attempts[..n], c, i, st) || HasTileAt(attempts[n], c, i, st)
    {
      assert forall k :: 0 <= k < n ==> attempts[..n + 1][k] == attempts[..n][k];
      if HasTileAt(attempts[n], c, i, st) {
        assert HasTileAt(attempts[..n + 1][n], c, i, st);
      }
    }
  }

  lemma {:induction false} NoteTile(m: PlaceMap, attempts: seq<Scored>, n: nat, t: nat, st: Status)
    requires n < |attempts| && t < |attempts[n].answer| && t < |attempts[n].result|
    requires NotesAre(m, attempts, n, t, st)
    ensures attempts[n].result[t] == st ==> NotesAre(Note(m, attempts[n].answer[t], t), attempts, n, t + 1, st)
    ensures attempts[n].result[t] != st ==> NotesAre(m, attempts, n, t + 1, st)
  {
    var c, s := attempts[n].answer[t], attempts[n];
    forall d, i: nat ensures Recorded(Note(m, c, t), d, i) <==> Recorded(m, d, i) || (d == c && i == t) {
    }
    forall d, i: nat
      ensures ShownSoFar(attempts, n, t + 1, d, i, st) <==>
              ShownSoFar(attempts, n, t, d, i, st) || (d == c && i == t && s.result[t] == st)
    {
    }
  }

  method BuildKnownCharacterLocationMap(attempts: seq<Scored>) returns (correct: PlaceMap, incorrect: PlaceMap)
    requires forall k :: 0 <= k < |attempts| ==> |attempts[k].answer| <= |attempts[k].result|
    ensures forall c, i: nat :: Recorded(correct, c, i) <==> Shown(attempts, c, i, CorrectLocation)
    ensures forall c, i: nat :: Recorded(incorrect, c, i) <==> Shown(attempts, c, i, WrongLocation)
  {
    correct, incorrect := map[], map[];
    for n := 0 to |attempts|
      invariant NotesAre(correct, attempts, n, 0, CorrectLocation)
      invariant NotesAre(incorrect, attempts, n, 0, WrongLocation)
    {
      var s := attempts[n];
      for idx := 0 to |s.answer|
        invariant NotesAre(correct, attempts, n, idx, CorrectLocation)
        invariant NotesAre(incorrect, attempts, n, idx, WrongLocation)
      {
        NoteTile(correct, attempts, n, idx, CorrectLocation);
        NoteTile(incorrect, attempts, n, idx, WrongLocation);
        match s.result[idx] {
          case CorrectLocation => correct := Note(correct, s.answer[idx], idx);
          case WrongLocation => incorrect := Note(incorrect, s.answer[idx], idx);
          case _ =>
        }
      }
      NextAttempt(correct, attempts, n, CorrectLocation);
      NextAttempt(incorrect, attempts, n, WrongLocation);
    }
    assert attempts[..|attempts|] == attempts;
  }

  /** Does the word put c on a recorded place where it should not, or the other way round? */
  method Clashes(word: string, m: PlaceMap, wanted: bool) returns (clash: bool)
    requires forall c, i: nat :: Recorded(m, c, i) ==> i < |word|
    ensures clash <==> exists c, i: nat :: Recorded(m, c, i) && (word[i] == c) != wanted
  {
    var todo := m.Keys;
    while todo != {}
      invariant todo <= m.Keys
      invariant forall c, i: nat :: Recorded(m, c, i) && c !in todo ==> (word[i] == c) == wanted
      decreases todo
    {
      var c :| c in todo;
      for k := 0 to |m[c]|
        invariant forall j :: 0 <= j < k ==> m[c][j] < |word| && (word[m[c][j]] == c) == wanted
      {
        assert Recorded(m, c, m[c][k]);
        if (word[m[c][k]] == c) != wanted {
          return true;
        }
      }
      todo := todo - {c};
    }
    return false;
  }

  predicate HasStatus(s: Scored, i: nat, st: Status) {
    i < |s.answer| && i < |s.result| && s.result[i] == st
  }

  /** Every place that some attempt shows with this status lies in the word. */
  ghost predicate PlacesIn(attempts: seq<Scored>, w: string, st: Status) {
    forall k, i: nat :: 0 <= k < |attempts| && HasStatus(attempts[k], i, st) ==> i < |w|
  }

  ghost predicate TilesFit(attempts: seq<Scored>, w: string, st: Status, wanted: bool) {
    forall k, i: nat :: 0 <= k < |attempts| && i < |w| && HasStatus(attempts[k], i, st) ==>
      (w[i] == attempts[k].answer[i]) == wanted
  }

  /** The filter can read the word: the green places first, and the yellow ones unless
      a green one has ruled the word out. */
  ghost predicate Readable(attempts: seq<Scored>, w: string) {
    && PlacesIn(attempts, w, CorrectLocation)
    && (TilesFit(attempts, w, CorrectLocation, true) ==> PlacesIn(attempts, w, WrongLocation))
  }

  method FilterWordsWithLettersInWrongLocations(words: seq<string>, attempts: seq<Scored>)
      returns (result: seq<string>)
    requires forall k :: 0 <= k < |attempts| ==> |attempts[k].answer| <= |attempts[k].result|
    requires forall j :: 0 <= j < |words| ==> Readable(attempts, words[j])
    ensures result == Keep(words, FitsPlaces(attempts))
  {
    var correct, incorrect := BuildKnownCharacterLocationMap(attempts);
    result := [];
    for j := 0 to |words|
      invariant result == Keep(words[..j], FitsPlaces(attempts))
    {
      FitsBoth(words[j], attempts);
      PlacesFit(words[j], attempts, correct, CorrectLocation, true);
      var clash := Clashes(words[j], correct, true);
      if !clash {
        PlacesFit(words[j], attempts, incorrect, WrongLocation, false);
        clash := Clashes(words[j], incorrect, false);
      }
      if !clash {
        result := result + [words[j]];
      }
      assert words[..j + 1][..j] == words[..j];
    }
    assert words[..|words|] == words;
  }

  lemma {:induction false} FitsBoth(w: string, attempts: seq<Scored>)
    ensures FitsPlaces(attempts)(w) <==>
      TilesFit(attempts, w, CorrectLocation, true) && TilesFit(attempts, w, WrongLocation, false)
  {
    if TilesFit(attempts, w, CorrectLocation, true) && TilesFit(attempts, w, WrongLocation, false) {
      forall k, i | 0 <= k < |attempts| && 0 <= i < |w| ensures FitsTile(w, attempts[k], i) {
        assert HasStatus(attempts[k], i, CorrectLocation) ==> w[i] == attempts[k].answer[i];
        assert HasStatus(attempts[k], i, WrongLocation) ==> w[i] != attempts[k].answer[i];
      }
    }
    if FitsPlaces(attempts)(w) {
      forall k, i: nat, st | 0 <= k < |attempts| && i < |w| && HasStatus(attempts[k], i, st)
        ensures st == CorrectLocation ==> w[i] == attempts[k].answer[i]
        ensures st == WrongLocation ==> w[i] != attempts[k].answer[i]
      {
        assert FitsTile(w, attempts[k], i);
      }
    }
  }

  lemma {:induction false} PlacesFit(w: string, attempts: seq<Scored>, m: PlaceMap, st: Status, wanted: bool)
    requires PlacesIn(attempts, w, st) && forall c, i: nat :: Recorded(m, c, i) <==> Shown(attempts, c, i, st)
    ensures forall c, i: nat :: Recorded(m, c, i) ==> i < |w|
    ensures TilesFit(attempts, w, st, wanted) <==> forall c, i: nat :: Recorded(m, c, i) ==> (w[i] == c) == wanted
  {
    forall c, i: nat | Recorded(m, c, i)
      ensures i < |w| && (TilesFit(attempts, w, st, wanted) ==> (w[i] == c) == wanted)
    {
      var k :| 0 <= k < |attempts| && HasTileAt(attempts[k], c, i, st);
      assert HasStatus(attempts[k], i, st);
    }
    forall k, i: nat | 0 <= k < |attempts| && HasStatus(attempts[k], i, st)
      ensures Recorded(m, attempts[k].answer[i], i)
    {
      assert HasTileAt(attempts[k], attempts[k].answer[i], i, st);
    }
  }
}
