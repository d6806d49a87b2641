/** A game in progress as a value: one step of each mode, what every known-answer
    run keeps, and the proof that the two modes stay in step
    (server/internal/game/wordle.go). */
module GameRules {
  import opened Scoring
  import opened Letters
  import opened WordLists
  import opened HintFilters
  import opened HintMeaning
  import opened Hints

  datatype Play = Play(attempts: seq<Scored>, letters: LetterMap, solved: bool) {
    predicate Over(max: int) { solved || |attempts| == max }
    predicate Tried(g: string) { exists k :: 0 <= k < |attempts| && attempts[k].answer == g }
    function Guesses(): seq<string> { seq(|attempts|, k requires 0 <= k < |attempts| => attempts[k].answer) }
  }

  const NewPlay := Play([], FreshMap(), false)

  datatype Verdict = Valid | WrongLength | AlreadyTried | NotAWord

  /** The checks of validateAttempt, first failure first. */
  function KnownVerdict(p: Play, a: string, dict: set<string>, g: string): Verdict {
    if |g| != |a| then WrongLength else if p.Tried(g) then AlreadyTried
    else if g !in dict then NotAWord else Valid
  }

  function UnknownVerdict(p: Play, len: nat, g: string): Verdict {
    if |g| != len then WrongLength else if p.Tried(g) then AlreadyTried else Valid
  }

  function KnownStep(p: Play, a: string, dict: set<string>, max: int, g: string): Play {
    if p.Over(max) || KnownVerdict(p, a, dict, g) != Valid then p
    else
      var r := Score(g, a);
      Play(p.attempts + [Scored(g, r)], KnownTiles(p.letters, g, r, |g|), p.solved || g == a)
  }

  predicate AllGreen(r: seq<Status>) {
    forall i :: 0 <= i < |r| ==> r[i] == CorrectLocation
  }

  function UnknownStep(p: Play, len: nat, max: int, g: string, r: seq<Status>): Play
    requires |r| <= |g|
  {
    if p.Over(max) || UnknownVerdict(p, len, g) != Valid then p
    else Play(p.attempts + [Scored(g, r)], UnknownTiles(p.letters, g, r), AllGreen(r))
  }

  /** Which attempts of a known-answer game are taken and what they do, and why the
      others are refused. */
  lemma {:induction false} KnownAttemptsAre(p: Play, a: string, dict: set<string>, max: int, g: string)
    ensures var q := KnownStep(p, a, dict, max, g);
      var tried := exists k :: 0 <= k < |p.attempts| && p.attempts[k].answer == g;
      if !p.solved && |p.attempts| != max && |g| == |a| && !tried && g in dict
      then q == Play(p.attempts + [Scored(g, Score(g, a))], q.letters, g == a)
      else q == p
    ensures var tried := exists k :: 0 <= k < |p.attempts| && p.attempts[k].answer == g;
      && (KnownVerdict(p, a, dict, g) == WrongLength <==> |g| != |a|)
      && (KnownVerdict(p, a, dict, g) == AlreadyTried <==> |g| == |a| && tried)
      && (KnownVerdict(p, a, dict, g) == NotAWord <==> |g| == |a| && !tried && g !in dict)
  {
  }

  /** The same for an unknown-answer game, with whatever result is reported. */
  lemma {:induction false} UnknownAttemptsAre(p: Play, len: nat, max: int, g: string, r: seq<Status>)
    requires |r| <= |g|
    ensures var q := UnknownStep(p, len, max, g, r);
      var tried := exists k :: 0 <= k < |p.attempts| && p.attempts[k].answer == g;
      if !p.solved && |p.attempts| != max && |g| == len && !tried
      then q == Play(p.attempts + [Scored(g, r)], q.letters, forall i :: 0 <= i < |r| ==> r[i] == CorrectLocation)
      else q == p
    ensures var tried := exists k :: 0 <= k < |p.attempts| && p.attempts[k].answer == g;
      && (UnknownVerdict(p, len, g) == WrongLength <==> |g| != len)
      && (UnknownVerdict(p, len, g) == AlreadyTried <==> |g| == len && tried)
      && UnknownVerdict(p, len, g) != NotAWord
  {
  }

  // ------------------------------------------------- what every run keeps

  /** Everything but the letter map: the attempts are different dictionary words,
      scored against the answer, no more than allowed, and the game is solved
      exactly when the last of them is the answer. */
  ghost predicate Sound(p: Play, a: string, dict: set<string>, max: int) {
    var gs := p.Guesses();
    && SameLengths(gs, a)
    && p.attempts == Recordings(gs, a)
    && (forall k :: 0 <= k < |gs| ==> gs[k] in dict)
    && (forall j, k :: 0 <= j < k < |gs| ==> gs[j] != gs[k])
    && (forall k :: 0 <= k < |gs| && gs[k] == a ==> k == |gs| - 1)
    && (p.solved <==> a in gs)
    && |gs| <= max
  }

  ghost predicate SoundKnown(p: Play, a: string, dict: set<string>, max: int) {
    Sound(p, a, dict, max) && p.letters == KnownMap(p.Guesses(), a)
  }

  lemma {:induction false} SoundAppend(p: Play, q: Play, a: string, dict: set<string>, max: int, g: string)
    requires Sound(p, a, dict, max) && !p.solved && |p.attempts| < max
    requires |g| == |a| && !p.Tried(g) && g in dict
    requires q.attempts == p.attempts + [Scored(g, Score(g, a))] && (q.solved <==> g == a)
    ensures Sound(q, a, dict, max) && q.Guesses() == p.Guesses() + [g]
  {
    var gs := p.Guesses();
    assert q.Guesses() == gs + [g];
    assert forall k :: 0 <= k < |gs| ==> gs[k] == p.attempts[k].answer && gs[k] != g;
    assert q.attempts == Recordings(gs + [g], a);
    assert q.Guesses()[|gs|] == g;
    assert a in q.Guesses() ==> a in gs || a == g;
  }

  /** Every attempt, accepted or refused, keeps the invariant of known mode. */
  lemma {:induction false} KnownStepKeepsSound(p: Play, a: string, dict: set<string>, max: int, g: string)
    requires SoundKnown(p, a, dict, max)
    ensures SoundKnown(KnownStep(p, a, dict, max, g), a, dict, max)
    ensures p.Over(max) ==> KnownStep(p, a, dict, max, g) == p
  {
    var q := KnownStep(p, a, dict, max, g);
    if q != p {
      SoundAppend(p, q, a, dict, max, g);
      MapsOfOneMore(p.Guesses(), g, a);
    }
  }

  // --------------------------------------------------------- whole runs

  function KnownRun(a: string, dict: set<string>, max: int, inputs: seq<string>): Play {
    if inputs == [] then NewPlay
    else KnownStep(KnownRun(a, dict, max, inputs[..|inputs| - 1]), a, dict, max, inputs[|inputs| - 1])
  }

  /** The result an honest player reports for a hidden word. */
  function Honest(g: string, a: string): (r: seq<Status>)
    ensures |r| == |g|
  {
    if |g| == |a| then Score(g, a) else seq(|g|, _ => NotPresent)
  }

  function HonestRun(a: string, max: int, inputs: seq<string>): Play {
    if inputs == [] then NewPlay
    else
      var g := inputs[|inputs| - 1];
      UnknownStep(HonestRun(a, max, inputs[..|inputs| - 1]), |a|, max, g, Honest(g, a))
  }

  lemma {:induction false} RunsAreSound(a: string, dict: set<string>, max: int, inputs: seq<string>)
    requires max >= 0
    ensures SoundKnown(KnownRun(a, dict, max, inputs), a, dict, max)
  {
    if inputs == [] {
      assert NewPlay.Guesses() == [];
      assert Recordings([], a) == [];
    } else {
      RunsAreSound(a, dict, max, inputs[..|inputs| - 1]);
      KnownStepKeepsSound(KnownRun(a, dict, max, inputs[..|inputs| - 1]), a, dict, max, inputs[|inputs| - 1]);
    }
  }

  ghost predicate Mirrors(p: Play, q: Play, a: string)
    requires SameLengths(p.Guesses(), a)
  {
    q.attempts == p.attempts && q.solved == p.solved && q.letters == UnknownMap(p.Guesses(), a)
  }

  lemma {:induction false} AcceptedStepsMirror(p: Play, q: Play, a: string, dict: set<string>, max: int, g: string)
    requires SoundKnown(p, a, dict, max) && Mirrors(p, q, a)
    requires !p.Over(max) && KnownVerdict(p, a, dict, g) == Valid
    ensures var p' := KnownStep(p, a, dict, max, g);
      SameLengths(p'.Guesses(), a) && Mirrors(p', UnknownStep(q, |a|, max, g, Honest(g, a)), a)
  {
    AllGreenIffSolved(g, a);
    assert AllGreen(Score(g, a)) <==> g == a;
    SoundAppend(p, KnownStep(p, a, dict, max, g), a, dict, max, g);
    MapsOfOneMore(p.Guesses(), g, a);
  }

  lemma {:induction false} StepsMirror(p: Play, q: Play, a: string, dict: set<string>, max: int, g: string)
    requires SoundKnown(p, a, dict, max) && Mirrors(p, q, a) && g in dict
    ensures var p' := KnownStep(p, a, dict, max, g);
      SameLengths(p'.Guesses(), a) && Mirrors(p', UnknownStep(q, |a|, max, g, Honest(g, a)), a)
  {
    if !p.Over(max) && KnownVerdict(p, a, dict, g) == Valid {
      AcceptedStepsMirror(p, q, a, dict, max, g);
    }
  }

  lemma {:induction false} HonestRunMirrors(a: string, dict: set<string>, max: int, inputs: seq<string>)
    requires max >= 0 && forall k :: 0 <= k < |inputs| ==> inputs[k] in dict
    ensures SoundKnown(KnownRun(a, dict, max, inputs), a, dict, max)
    ensures Mirrors(KnownRun(a, dict, max, inputs), HonestRun(a, max, inputs), a)
  {
    RunsAreSound(a, dict, max, inputs);
    if inputs != [] {
      var n := |inputs| - 1;
      HonestRunMirrors(a, dict, max, inputs[..n]);
      StepsMirror(KnownRun(a, dict, max, inputs[..n]), HonestRun(a, max, inputs[..n]), a, dict, max, inputs[n]);
    }
  }

  /** The two modes in step.  Whatever dictionary words are tried, in whatever
      order, refused or not, unknown mode fed honest results and known mode agree
      on the attempts, on solved and over, on each letter being absent, present or
      untried, and on the filtered candidates of any word list. */
  lemma {:induction false} ModesStayInStep(a: string, dict: set<string>, max: int, inputs: seq<string>,
                                           words: seq<string>)
    requires max >= 0 && forall k :: 0 <= k < |inputs| ==> inputs[k] in dict
    ensures var p, q := KnownRun(a, dict, max, inputs), HonestRun(a, max, inputs);
      && q.attempts == p.attempts && q.solved == p.solved && (q.Over(max) <==> p.Over(max))
      && (forall c :: IsLetter(c) ==> ClassOf(StatusOf(q.letters, c)) == ClassOf(StatusOf(p.letters, c)))
      && Candidates(words, q.attempts, q.letters) == Candidates(words, p.attempts, p.letters)
  {
    HonestRunMirrors(a, dict, max, inputs);
    var p := KnownRun(a, dict, max, inputs);
    BothModesSummarise(p.Guesses(), a);
  }

  /** In a known-answer game the answer is never filtered out, and while no guess
      repeats a letter the candidates are exactly the words that explain the board. */
  lemma {:induction false} CandidatesOfAGame(a: string, dict: set<string>, max: int, inputs: seq<string>,
      words: seq<string>)
    requires max >= 0
    ensures var p := KnownRun(a, dict, max, inputs);
      && (a in words ==> a in Candidates(words, p.attempts, p.letters))
      && (forall w :: w in words && Consistent(p.attempts)(w) ==> w in Candidates(words, p.attempts, p.letters))
      && (SameLengths(words, a) && (forall g :: g in p.Guesses() ==> LowerCase(g) && NoRepeats(g)) ==>
            Candidates(words, p.attempts, p.letters) == Keep(words, Consistent(p.attempts)))
  {
    RunsAreSound(a, dict, max, inputs);
    var p := KnownRun(a, dict, max, inputs);
    var gs := p.Guesses();
    BothModesSummarise(gs, a);
    CandidatesKeepPassing(words, p.attempts, p.letters);
    forall w ensures Consistent(p.attempts)(w) ==> Passes(p.attempts, p.letters)(w)
             ensures Passes(p.attempts, p.letters)(a) {
      ConsistentWordsPass(gs, a, p.letters, w);
    }
    if SameLengths(words, a) && forall g :: g in gs ==> LowerCase(g) && NoRepeats(g) {
      FiltersAreExact(words, gs, a, p.letters);
    }
  }

  lemma {:induction false} GuessedIsKnown(gs: seq<string>, a: string, m: LetterMap, k: nat, c: char)
    requires SameLengths(gs, a) && Summarises(m, gs, a) && k < |gs| && c in gs[k]
    ensures c !in LettersWith(m, Unknown)
  {
    assert Guessed(gs, c);
    if IsLetter(c) {
      assert ClassOf(StatusOf(m, c)) == ClassOf(Knowledge(gs, a, c));
    }
  }

  lemma {:induction false} OtherLetters(gs: seq<string>, letters: set<char>, w: string)
    requires AllFrom(letters)(w)
    requires forall k :: 0 <= k < |gs| ==> gs[k] != "" && forall c :: c in gs[k] ==> c !in letters
    ensures w !in gs
  {
    forall k | 0 <= k < |gs| ensures gs[k] != w {
      assert gs[k][0] in gs[k];
    }
  }

  /** A word of untried letters has not been tried, in a game that is not solved. */
  lemma {:induction false} UntriedIsNew(gs: seq<string>, a: string, m: LetterMap, w: string)
    requires SameLengths(gs, a) && Summarises(m, gs, a) && a !in gs && AllFrom(LettersWith(m, Unknown))(w)
    ensures w !in gs
  {
    forall k | 0 <= k < |gs|
      ensures gs[k] != "" && forall c :: c in gs[k] ==> c !in LettersWith(m, Unknown)
    {
      assert gs[k] != a;
      forall c | c in gs[k] ensures c !in LettersWith(m, Unknown) {
        GuessedIsKnown(gs, a, m, k, c);
      }
    }
    OtherLetters(gs, LettersWith(m, Unknown), w);
  }

  /** The answer passes the filters, and a word of untried letters is a new one. */
  lemma {:induction false} NewMatch(gs: seq<string>, a: string, m: LetterMap, words: seq<string>) returns (w: string)
    requires SameLengths(gs, a) && Summarises(m, gs, a) && a in words && a !in gs
    ensures w in Matches(words, Recordings(gs, a), m) && w !in gs
  {
    if UntriedWords(words, m) == [] {
      w := a;
      CandidatesKeepPassing(words, Recordings(gs, a), m);
      ConsistentWordsPass(gs, a, m, a);
    } else {
      w := UntriedWords(words, m)[0];
      SortedMembers(Keep(words, AllFrom(LettersWith(m, Unknown))), ByLetters(One()));
      UntriedIsNew(gs, a, m, w);
    }
  }

  lemma {:induction false} MatchIsListed(dict: seq<string>, matches: seq<string>, m: LetterMap, w: string)
    requires w in matches && w in dict
    ensures w in Listed(dict, matches, m)
  {
    match BranchFor(dict, matches, m)
    case AsFound =>
    case RankDictionary(f) => SortedMembers(dict, f);
    case RankMatches(f) => SortedMembers(matches, f);
  }

  lemma {:induction false} NewIsHinted(listed: seq<string>, gs: seq<string>, attempts: seq<Scored>, w: string)
    requires w in listed && w !in gs
    requires |attempts| == |gs| && forall k :: 0 <= k < |gs| ==> attempts[k].answer == gs[k]
    ensures FirstFew(Keep(listed, NotAttempted(attempts))) != []
  {
    assert w in Keep(listed, NotAttempted(attempts));
  }

  /** As long as the answer is allowed and has not been tried there is a hint. */
  lemma {:induction false} SomeHint(gs: seq<string>, a: string, m: LetterMap, words: seq<string>)
    requires SameLengths(gs, a) && Summarises(m, gs, a) && a in words && a !in gs
    ensures HintsFor(words, Recordings(gs, a), m) != []
  {
    var attempts := Recordings(gs, a);
    var w := NewMatch(gs, a, m, words);
    MatchesAreAllowed(words, attempts, m);
    MatchIsListed(words, Matches(words, attempts, m), m, w);
    NewIsHinted(Listed(words, Matches(words, attempts, m), m), gs, attempts, w);
  }

  // ------------------------------------------------- sessions of any length

  /** A known-answer game with its limit, which can be moved while it is played, and the
      allowed words in the order that the last hint left them. */
  datatype Session = Session(play: Play, answer: string, max: int, words: seq<string>)

  /** NewGame is Reset: another answer and a list filtered afresh, with the configured limit. */
  datatype Op =
    | Try(word: string)
    | AskHints
    | MoreAttempts
    | FewerAttempts
    | NewGame(answer: string, words: seq<string>)

  function SessionStep(s: Session, dict: set<string>, startMax: int, op: Op): Session {
    match op
    case Try(g) => s.(play := KnownStep(s.play, s.answer, dict, s.max, g))
    case AskHints =>
      if s.play.solved then s else s.(words := ListAfter(s.words, s.play.attempts, s.play.letters))
    case MoreAttempts => s.(max := s.max + 1)
    case FewerAttempts =>
      if |s.play.attempts| >= s.max - 1 || s.max == 1 then s else s.(max := s.max - 1)
    case NewGame(a, words) => Session(NewPlay, a, startMax, words)
  }

  lemma {:induction false} TryIsStep(s: Session, dict: set<string>, startMax: int, g: string)
    ensures SessionStep(s, dict, startMax, Try(g)) ==
            Session(KnownStep(s.play, s.answer, dict, s.max, g), s.answer, s.max, s.words)
  {
  }

  function SessionRun(first: Op, dict: set<string>, startMax: int, ops: seq<Op>): Session
    requires first.NewGame?
  {
    if ops == [] then Session(NewPlay, first.answer, startMax, first.words)
    else SessionStep(SessionRun(first, dict, startMax, ops[..|ops| - 1]), dict, startMax, ops[|ops| - 1])
  }

  /** The list that the running game began with. */
  function ListAtStart(first: Op, ops: seq<Op>): seq<string>
    requires first.NewGame?
  {
    if ops == [] then first.words
    else if ops[|ops| - 1].NewGame? then ops[|ops| - 1].words
    else ListAtStart(first, ops[..|ops| - 1])
  }

  ghost predicate SessionOk(s: Session, dict: set<string>) {
    SoundKnown(s.play, s.answer, dict, s.max) && s.max >= 0
  }

  lemma {:induction false} SessionStepOk(s: Session, dict: set<string>, startMax: int, op: Op)
    requires SessionOk(s, dict) && startMax >= 0
    ensures SessionOk(SessionStep(s, dict, startMax, op), dict)
  {
    match op
    case Try(g) => KnownStepKeepsSound(s.play, s.answer, dict, s.max, g);
    case NewGame(b, _) => RunsAreSound(b, dict, startMax, []);
    case _ =>
  }

  lemma {:induction false} StepPermutes(s: Session, dict: set<string>, startMax: int, op: Op)
    ensures multiset(SessionStep(s, dict, startMax, op).words) == multiset(if op.NewGame? then op.words else s.words)
  {
    match op
    case AskHints => ListOnlyPermuted(s.words, s.play.attempts, s.play.letters);
    case _ =>
  }

  /** Over every run of attempts, hints, limit changes and resets: the attempts are
      pairwise different dictionary words scored against the answer and within the
      limit, the game is solved exactly when the last one is the answer, the letter map
      is the one those guesses give, and hints have only permuted the allowed words. */
  lemma {:induction false} SessionsAreSound(first: Op, dict: set<string>, startMax: int, ops: seq<Op>)
    requires first.NewGame? && startMax >= 0
    ensures var s := SessionRun(first, dict, startMax, ops);
      && SoundKnown(s.play, s.answer, dict, s.max) && s.max >= 0
      && multiset(s.words) == multiset(ListAtStart(first, ops))
  {
    if ops == [] {
      RunsAreSound(first.answer, dict, startMax, []);
    } else {
      var n := |ops| - 1;
      SessionsAreSound(first, dict, startMax, ops[..n]);
      SessionStepOk(SessionRun(first, dict, startMax, ops[..n]), dict, startMax, ops[n]);
      StepPermutes(SessionRun(first, dict, startMax, ops[..n]), dict, startMax, ops[n]);
    }
  }

  /** A finished game ignores attempts.  Lowering takes one off the limit as long as that
      leaves an attempt to spare, and never finishes a game; raising adds one, and leaves a
      game over only if it is solved. */
  lemma {:induction false} LimitsAndEndings(first: Op, dict: set<string>, startMax: int, ops: seq<Op>, g: string)
    requires first.NewGame? && startMax >= 0
    ensures var s := SessionRun(first, dict, startMax, ops);
      && (s.play.Over(s.max) ==> SessionStep(s, dict, startMax, Try(g)) == s)
      && (var t := SessionStep(s, dict, startMax, FewerAttempts);
          (t.play.Over(t.max) <==> s.play.Over(s.max)) && (s.max >= 1 ==> t.max >= 1) &&
          t == s.(max := if |s.play.attempts| + 1 < s.max && s.max != 1 then s.max - 1 else s.max))
      && (var t := SessionStep(s, dict, startMax, MoreAttempts);
          (t.play.Over(t.max) <==> s.answer in s.play.Guesses()) && t == s.(max := s.max + 1))
  {
    SessionsAreSound(first, dict, startMax, ops);
  }

  /** A hint given anywhere in a session is the one that the list would have given as the
      game began: hints asked for earlier have changed no later one. */
  lemma {:induction false} EarlierHintsDoNotMatter(first: Op, dict: set<string>, startMax: int, ops: seq<Op>)
    requires first.NewGame? && startMax >= 0
    ensures var s := SessionRun(first, dict, startMax, ops);
      HintsFor(s.words, s.play.attempts, s.play.letters) ==
      HintsFor(ListAtStart(first, ops), s.play.attempts, s.play.letters)
  {
    SessionsAreSound(first, dict, startMax, ops);
    var s := SessionRun(first, dict, startMax, ops);
    HintsIgnoreListOrder(s.words, ListAtStart(first, ops), s.play.attempts, s.play.letters);
  }

  /** Anywhere in a session, a game that is not solved gets a hint if its answer was among
      the allowed words as it began. */
  lemma {:induction false} LiveGamesGetHints(first: Op, dict: set<string>, startMax: int, ops: seq<Op>)
    requires first.NewGame? && startMax >= 0
    ensures var s := SessionRun(first, dict, startMax, ops);
      s.answer in ListAtStart(first, ops) && !s.play.solved ==>
        HintsFor(s.words, s.play.attempts, s.play.letters) != []
  {
    SessionsAreSound(first, dict, startMax, ops);
    var s := SessionRun(first, dict, startMax, ops);
    if s.answer in ListAtStart(first, ops) && !s.play.solved {
      assert s.answer in multiset(ListAtStart(first, ops));
      BothModesSummarise(s.play.Guesses(), s.answer);
      SomeHint(s.play.Guesses(), s.answer, s.play.letters, s.words);
    }
  }

  /** And so does an unknown-answer game that is told honest results for allowed words. */
  lemma {:induction false} HonestGamesGetHints(a: string, dict: set<string>, max: int, inputs: seq<string>,
                                               words: seq<string>)
    requires max >= 0 && (forall k :: 0 <= k < |inputs| ==> inputs[k] in dict) && a in words
    ensures var q := HonestRun(a, max, inputs);
      !q.solved ==> HintsFor(words, q.attempts, q.letters) != []
  {
    HonestRunMirrors(a, dict, max, inputs);
    var gs := KnownRun(a, dict, max, inputs).Guesses();
    BothModesSummarise(gs, a);
    if !HonestRun(a, max, inputs).solved {
      SomeHint(gs, a, UnknownMap(gs, a), words);
    }
  }
}
