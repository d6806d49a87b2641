/** What the game knows about each letter: the map that a known-answer attempt
    and an unknown-answer attempt update by different rules
    (server/internal/game/wordle.go). */
module Letters {
  import opened Scoring

  type LetterMap = map<char, Status>

  /** A Go map read: a missing letter has the zero value, NotPresent. */
  function StatusOf(m: LetterMap, c: char): Status {
    if c in m then m[c] else NotPresent
  }

  predicate IsLetter(c: char) { 'a' <= c <= 'z' }

  function FreshMap(): LetterMap {
    map c: char | IsLetter(c) :: Unknown
  }

  // ------------------------------------------------ known answer: one switch

  /** The switch in computeAttempt. */
  function KnownTile(m: LetterMap, c: char, st: Status): LetterMap {
    match st
    case NotPresent => if StatusOf(m, c) == Unknown then m[c := NotPresent] else m
    case WrongLocation => if StatusOf(m, c) != CorrectLocation then m[c := WrongLocation] else m
    case CorrectLocation => m[c := CorrectLocation]
    case Unknown => m
  }

  function KnownTiles(m: LetterMap, g: string, r: seq<Status>, n: nat): LetterMap
    requires n <= |g| == |r|
  {
    if n == 0 then m else KnownTile(KnownTiles(m, g, r, n - 1), g[n - 1], r[n - 1])
  }

  // ------------------------------------------- unknown answer: two passes

  function MarkTiles(m: LetterMap, g: string, r: seq<Status>, n: nat): LetterMap
    requires n <= |r| <= |g|
  {
    if n == 0 then m
    else
      var before := MarkTiles(m, g, r, n - 1);
      if r[n - 1] != NotPresent then before[g[n - 1] := r[n - 1]] else before
  }

  /** The second pass deletes a grey letter unless it is confirmed. */
  function DropTiles(m: LetterMap, g: string, r: seq<Status>, n: nat): LetterMap
    requires n <= |r| <= |g|
  {
    if n == 0 then m
    else
      var before := DropTiles(m, g, r, n - 1);
      if r[n - 1] == NotPresent && StatusOf(before, g[n - 1]) !in {WrongLocation, CorrectLocation}
      then before - {g[n - 1]} else before
  }

  function UnknownTiles(m: LetterMap, g: string, r: seq<Status>): LetterMap
    requires |r| <= |g|
  {
    DropTiles(MarkTiles(m, g, r, |r|), g, r, |r|)
  }

  // --------------------------------------------- what the map ought to say

  predicate Green(g: string, a: string, c: char)
    requires |g| == |a|
  {
    exists i :: 0 <= i < |g| && g[i] == a[i] == c
  }

  predicate SameLengths(guesses: seq<string>, a: string) {
    forall k :: 0 <= k < |guesses| ==> |guesses[k]| == |a|
  }

  predicate Guessed(guesses: seq<string>, c: char) {
    exists k :: 0 <= k < |guesses| && c in guesses[k]
  }

  predicate Placed(guesses: seq<string>, a: string, c: char)
    requires SameLengths(guesses, a)
  {
    exists k :: 0 <= k < |guesses| && Green(guesses[k], a, c)
  }

  /** The status a letter deserves, read off the guesses as a set. */
  function Knowledge(guesses: seq<string>, a: string, c: char): Status
    requires SameLengths(guesses, a)
  {
    if !Guessed(guesses, c) then Unknown
    else if c !in a then NotPresent
    else if Placed(guesses, a, c) then CorrectLocation
    else WrongLocation
  }

  datatype Class = Absent | Present | Untried

  function ClassOf(st: Status): Class {
    match st
    case NotPresent => Absent
    case Unknown => Untried
    case _ => Present
  }

  // ------------------------------------------------------- the two run maps

  function KnownMap(guesses: seq<string>, a: string): LetterMap
    requires SameLengths(guesses, a)
  {
    if guesses == [] then FreshMap()
    else
      var n := |guesses| - 1;
      KnownTiles(KnownMap(guesses[..n], a), guesses[n], Score(guesses[n], a), |guesses[n]|)
  }

  function UnknownMap(guesses: seq<string>, a: string): LetterMap
    requires SameLengths(guesses, a)
  {
    if guesses == [] then FreshMap()
    else
      var n := |guesses| - 1;
      UnknownTiles(UnknownMap(guesses[..n], a), guesses[n], Score(guesses[n], a))
  }

  lemma {:induction false} MapsOfOneMore(guesses: seq<string>, g: string, a: string)
    requires SameLengths(guesses, a) && |g| == |a|
    ensures SameLengths(guesses + [g], a)
    ensures KnownMap(guesses + [g], a) == KnownTiles(KnownMap(guesses, a), g, Score(g, a), |g|)
    ensures UnknownMap(guesses + [g], a) == UnknownTiles(UnknownMap(guesses, a), g, Score(g, a))
  {
    assert (guesses + [g])[..|guesses|] == guesses;
  }

  // --------------------------------------------------------- single attempts

  predicate HasTile(g: string, r: seq<Status>, c: char, st: Status, n: nat)
    requires n <= |r| <= |g|
  {
    exists i :: 0 <= i < n && g[i] == c && r[i] == st
  }

  /** After n tiles a letter shows its best tile so far; a grey tile alone only
      settles a letter that was still unknown. */
  lemma {:induction false} KnownTilesEffect(m: LetterMap, g: string, r: seq<Status>, c: char, n: nat)
    requires n <= |g| == |r|
    ensures StatusOf(KnownTiles(m, g, r, n), c) ==
            if HasTile(g, r, c, CorrectLocation, n) || StatusOf(m, c) == CorrectLocation then CorrectLocation
            else if HasTile(g, r, c, WrongLocation, n) then WrongLocation
            else if HasTile(g, r, c, NotPresent, n) && StatusOf(m, c) == Unknown then NotPresent
            else StatusOf(m, c)
  {
    if n > 0 {
      KnownTilesEffect(m, g, r, c, n - 1);
    }
  }

  /** The last coloured tile of c among the first n, NotPresent if there is none. */
  function LastMark(g: string, r: seq<Status>, c: char, n: nat): Status
    requires n <= |r| <= |g|
  {
    if n == 0 then NotPresent
    else if g[n - 1] == c && r[n - 1] != NotPresent then r[n - 1]
    else LastMark(g, r, c, n - 1)
  }

  lemma {:induction false} MarkTilesEffect(m: LetterMap, g: string, r: seq<Status>, c: char, n: nat)
    requires n <= |r| <= |g|
    ensures var mark := LastMark(g, r, c, n);
      && StatusOf(MarkTiles(m, g, r, n), c) == (if mark != NotPresent then mark else StatusOf(m, c))
      && (mark != NotPresent ==> HasTile(g, r, c, mark, n))
      && (mark == NotPresent <==> forall i :: 0 <= i < n && g[i] == c ==> r[i] == NotPresent)
  {
    if n > 0 {
      MarkTilesEffect(m, g, r, c, n - 1);
    }
  }

  lemma {:induction false} DropTilesEffect(m: LetterMap, g: string, r: seq<Status>, c: char, n: nat)
    requires n <= |r| <= |g|
    ensures StatusOf(DropTiles(m, g, r, n), c) ==
            if HasTile(g, r, c, NotPresent, n) && ClassOf(StatusOf(m, c)) != Present then NotPresent
            else StatusOf(m, c)
  {
    if n > 0 {
      DropTilesEffect(m, g, r, c, n - 1);
    }
  }

  lemma {:induction false} LastMarkAt(g: string, r: seq<Status>, c: char, n: nat, i: nat)
    requires i < n <= |r| <= |g| && g[i] == c && r[i] != NotPresent
    requires forall j :: i < j < n && g[j] == c ==> r[j] == NotPresent
    ensures LastMark(g, r, c, n) == r[i]
  {
    if i < n - 1 {
      LastMarkAt(g, r, c, n - 1, i);
    }
  }

  /** Tile i is yellow or green, and those of its letter after it are grey. */
  predicate LastColoured(g: string, r: seq<Status>, i: nat)
    requires |r| <= |g|
  {
    && i < |r| && (r[i] == WrongLocation || r[i] == CorrectLocation)
    && forall j :: i < j < |r| && g[j] == g[i] ==> r[j] == NotPresent
  }

  /** Whatever is reported: a letter takes the status of its last tile that is not grey, if
      that is yellow or green; with grey tiles alone it is absent, unless it was known to
      be present; a letter without tiles keeps its status. */
  lemma {:induction false} ReportedTiles(m: LetterMap, g: string, r: seq<Status>, c: char)
    requires |r| <= |g|
    ensures forall i: nat :: LastColoured(g, r, i) && g[i] == c ==> StatusOf(UnknownTiles(m, g, r), c) == r[i]
    ensures (forall i :: 0 <= i < |r| && g[i] == c ==> r[i] == NotPresent) ==>
      StatusOf(UnknownTiles(m, g, r), c) ==
        if c in g[..|r|] && StatusOf(m, c) != WrongLocation && StatusOf(m, c) != CorrectLocation
        then NotPresent else StatusOf(m, c)
  {
    MarkTilesEffect(m, g, r, c, |r|);
    DropTilesEffect(MarkTiles(m, g, r, |r|), g, r, c, |r|);
    forall i: nat | LastColoured(g, r, i) && g[i] == c ensures LastMark(g, r, c, |r|) == r[i] {
      LastMarkAt(g, r, c, |r|, i);
    }
    if i :| 0 <= i < |r| && g[i] == c && r[i] == NotPresent {
      assert HasTile(g, r, c, NotPresent, |r|);
    }
  }

  /** A letter of the guess is coloured somewhere iff the answer has it. */
  lemma {:induction false} ScoreReveals(g: string, a: string, c: char)
    requires |g| == |a|
    ensures HasTile(g, Score(g, a), c, CorrectLocation, |g|) <==> Green(g, a, c)
    ensures c in g && c in a <==>
      HasTile(g, Score(g, a), c, CorrectLocation, |g|) || HasTile(g, Score(g, a), c, WrongLocation, |g|)
    ensures c in g && c !in a ==> HasTile(g, Score(g, a), c, NotPresent, |g|)
    ensures HasTile(g, Score(g, a), c, NotPresent, |g|) ==> c in g
  {
    var r := Score(g, a);
    if Green(g, a, c) {
      var i :| 0 <= i < |g| && g[i] == a[i] == c;
      assert r[i] == CorrectLocation;
    }
    ScoreMeetsSpec(g, a);
    NoTile(g, r, c, CorrectLocation, |g|);
    NoTile(g, r, c, WrongLocation, |g|);
    assert Marked(g, r, c) == Min(multiset(g)[c], multiset(a)[c]);
    if c in g && c !in a {
      var i :| 0 <= i < |g| && g[i] == c;
      assert r[i] == NotPresent;
    }
  }

  lemma {:induction false} NoTile(g: string, r: seq<Status>, c: char, st: Status, n: nat)
    requires n <= |g| == |r|
    ensures Tiles(g, r, c, st, n) > 0 <==> HasTile(g, r, c, st, n)
  {
    if n > 0 {
      NoTile(g, r, c, st, n - 1);
    }
  }

  // -------------------------------------------------------------- whole runs

  lemma {:induction false} GuessedStep(guesses: seq<string>, c: char)
    requires guesses != []
    ensures Guessed(guesses, c) <==> Guessed(guesses[..|guesses| - 1], c) || c in guesses[|guesses| - 1]
  {
    var n := |guesses| - 1;
    if k :| 0 <= k < |guesses| && c in guesses[k] {
      assert k < n ==> c in guesses[..n][k];
    }
    if k :| 0 <= k < n && c in guesses[..n][k] {
      assert c in guesses[k];
    }
  }

  lemma {:induction false} PlacedStep(guesses: seq<string>, a: string, c: char)
    requires guesses != [] && SameLengths(guesses, a)
    ensures Placed(guesses, a, c) <==>
      Placed(guesses[..|guesses| - 1], a, c) || Green(guesses[|guesses| - 1], a, c)
  {
    var n := |guesses| - 1;
    if k :| 0 <= k < |guesses| && Green(guesses[k], a, c) {
      assert k < n ==> Green(guesses[..n][k], a, c);
    }
    if k :| 0 <= k < n && Green(guesses[..n][k], a, c) {
      assert Green(guesses[k], a, c);
    }
  }

  /** After any known-answer run the map is exactly the knowledge in the guesses:
      a closed form in which neither their order nor repetition matters, although
      a grey copy may write NotPresent before a green copy of the same letter. */
  lemma {:induction false} KnownMapIsKnowledge(guesses: seq<string>, a: string, c: char)
    requires SameLengths(guesses, a) && IsLetter(c)
    ensures StatusOf(KnownMap(guesses, a), c) == Knowledge(guesses, a, c)
  {
    if guesses != [] {
      var n := |guesses| - 1;
      KnownMapIsKnowledge(guesses[..n], a, c);
      KnownTilesEffect(KnownMap(guesses[..n], a), guesses[n], Score(guesses[n], a), c, |guesses[n]|);
      ScoreReveals(guesses[n], a, c);
      GuessedStep(guesses, c);
      PlacedStep(guesses, a, c);
      if Placed(guesses, a, c) {
        PlacedIsInAnswer(guesses, a, c);
      }
    }
  }

  lemma {:induction false} PlacedIsInAnswer(guesses: seq<string>, a: string, c: char)
    requires SameLengths(guesses, a) && Placed(guesses, a, c)
    ensures c in a && Guessed(guesses, c)
  {
    var k :| 0 <= k < |guesses| && Green(guesses[k], a, c);
    assert c in guesses[k];
  }

  /** Two runs over the same set of guesses, in any order, leave the same map. */
  lemma {:induction false} LetterMapIgnoresOrder(guesses: seq<string>, guesses': seq<string>, a: string, c: char)
    requires SameLengths(guesses, a) && SameLengths(guesses', a) && IsLetter(c)
    requires forall g :: g in guesses <==> g in guesses'
    ensures StatusOf(KnownMap(guesses, a), c) == StatusOf(KnownMap(guesses', a), c)
  {
    KnownMapIsKnowledge(guesses, a, c);
    KnownMapIsKnowledge(guesses', a, c);
    KnowledgeFromSet(guesses, guesses', a, c);
    KnowledgeFromSet(guesses', guesses, a, c);
  }

  lemma {:induction false} KnowledgeFromSet(guesses: seq<string>, guesses': seq<string>, a: string, c: char)
    requires SameLengths(guesses, a) && SameLengths(guesses', a)
    requires forall g :: g in guesses ==> g in guesses'
    ensures Guessed(guesses, c) ==> Guessed(guesses', c)
    ensures Placed(guesses, a, c) ==> Placed(guesses', a, c)
  {
    if k :| 0 <= k < |guesses| && c in guesses[k] {
      assert guesses[k] in guesses;
      var k' :| 0 <= k' < |guesses'| && guesses'[k'] == guesses[k];
    }
    if k :| 0 <= k < |guesses| && Green(guesses[k], a, c) {
      assert guesses[k] in guesses;
      var k' :| 0 <= k' < |guesses'| && guesses'[k'] == guesses[k];
    }
  }

  /** The last coloured tile of c over a whole run. */
  function LastMarkOf(guesses: seq<string>, a: string, c: char): Status
    requires SameLengths(guesses, a)
  {
    if guesses == [] then NotPresent
    else
      var n := |guesses| - 1;
      var mark := LastMark(guesses[n], Score(guesses[n], a), c, |a|);
      if mark != NotPresent then mark else LastMarkOf(guesses[..n], a, c)
  }

  /** The unknown-answer rule, fed honest results, keeps the last coloured tile
      of each letter that has one, and otherwise whether it was tried. */
  lemma {:induction false} UnknownMapIsLastMark(guesses: seq<string>, a: string, c: char)
    requires SameLengths(guesses, a) && IsLetter(c)
    ensures StatusOf(UnknownMap(guesses, a), c) ==
            if Guessed(guesses, c) then LastMarkOf(guesses, a, c) else Unknown
    ensures LastMarkOf(guesses, a, c) != NotPresent <==> Guessed(guesses, c) && c in a
    ensures LastMarkOf(guesses, a, c) != Unknown
  {
    if guesses != [] {
      var n := |guesses| - 1;
      var g, r, m := guesses[n], Score(guesses[n], a), UnknownMap(guesses[..n], a);
      UnknownMapIsLastMark(guesses[..n], a, c);
      GuessedStep(guesses, c);
      ScoreReveals(g, a, c);
      ScoreMeetsSpec(g, a);
      MarkTilesEffect(m, g, r, c, |r|);
      DropTilesEffect(MarkTiles(m, g, r, |r|), g, r, c, |r|);
    }
  }

  /** So it agrees with the known-answer rule on absent, present and untried. */
  lemma {:induction false} UnknownMapClass(guesses: seq<string>, a: string, c: char)
    requires SameLengths(guesses, a) && IsLetter(c)
    ensures ClassOf(StatusOf(UnknownMap(guesses, a), c)) == ClassOf(StatusOf(KnownMap(guesses, a), c))
  {
    UnknownMapIsLastMark(guesses, a, c);
    KnownMapIsKnowledge(guesses, a, c);
  }

  /** On green against yellow they agree exactly when no yellow tile of a letter
      follows the green one: the unknown-answer rule may downgrade. */
  lemma {:induction false} MapsAgreeIff(guesses: seq<string>, a: string, c: char)
    requires SameLengths(guesses, a) && IsLetter(c)
    ensures StatusOf(UnknownMap(guesses, a), c) == StatusOf(KnownMap(guesses, a), c) <==>
            (Placed(guesses, a, c) ==> LastMarkOf(guesses, a, c) == CorrectLocation)
  {
    UnknownMapIsLastMark(guesses, a, c);
    KnownMapIsKnowledge(guesses, a, c);
    if Placed(guesses, a, c) {
      PlacedIsInAnswer(guesses, a, c);
    }
    UnplacedHasNoGreenMark(guesses, a, c);
  }

  lemma {:induction false} UnplacedHasNoGreenMark(guesses: seq<string>, a: string, c: char)
    requires SameLengths(guesses, a)
    ensures LastMarkOf(guesses, a, c) == CorrectLocation ==> Placed(guesses, a, c)
  {
    if guesses != [] {
      var n := |guesses| - 1;
      UnplacedHasNoGreenMark(guesses[..n], a, c);
      PlacedStep(guesses, a, c);
      MarkTilesEffect(map[], guesses[n], Score(guesses[n], a), c, |a|);
      ScoreReveals(guesses[n], a, c);
    }
  }

  /** The downgrade on a concrete run: green in "ab", then yellow in "ca". */
  lemma {:induction false} UnknownModeDowngrades()
    ensures var guesses, a := ["ab", "ca"], "ad";
      && StatusOf(KnownMap(guesses, a), 'a') == CorrectLocation
      && StatusOf(UnknownMap(guesses, a), 'a') == WrongLocation
  {
    var guesses, a := ["ab", "ca"], "ad";
    assert Green(guesses[0], a, 'a') by { assert guesses[0][0] == a[0]; }
    assert 'a' in guesses[0];
    assert Guessed(guesses, 'a');
    KnownMapIsKnowledge(guesses, a, 'a');
    UnknownMapIsLastMark(guesses, a, 'a');
  }
}
