/** The game object (server/internal/game/wordle.go, options.go): its fields change
    in place, and every method is proved against the steps of module GameRules. */
module Wordle {
  import opened Scoring
  import opened Letters
  import opened WordLists
  import opened Hints
  import opened GameRules

  // ------------------------------------------------------------ the options

  datatype GameOption =
    | WithAnswer(answer: string)
    | WithDictionary(words: array<string>)
    | WithMaxAttempts(n: int)
    | WithWordFilters(filters: seq<Filter>)
    | WithUnknownAnswer(wordLen: nat)

  datatype Setup = Setup(answer: string, unknown: bool, dictionary: array<string>, max: int, filters: seq<Filter>)

  function ApplyOption(s: Setup, o: GameOption): Setup {
    match o
    case WithAnswer(a) => s.(answer := a)
    case WithDictionary(d) => s.(dictionary := d)
    case WithMaxAttempts(n) => s.(max := n)
    case WithWordFilters(fs) => s.(filters := fs)
    case WithUnknownAnswer(len) => s.(answer := seq(len, _ => ' '), unknown := true)
  }

  function ApplyOptions(s: Setup, os: seq<GameOption>): Setup {
    if os == [] then s else ApplyOption(ApplyOptions(s, os[..|os| - 1]), os[|os| - 1])
  }

  /** The three defaults that New puts in front of the caller's options. */
  predicate HasDefaults(os: seq<GameOption>) {
    |os| >= 3 && os[0].WithDictionary? && os[1].WithMaxAttempts? && os[2].WithWordFilters?
  }

  /** What the options make of a fresh object. */
  function Configured(os: seq<GameOption>): Setup
    requires HasDefaults(os)
  {
    ApplyOptions(Setup("", false, os[0].words, 0, []), os)
  }

  /** Option i is of a kind, and none after it is. */
  predicate Last(os: seq<GameOption>, i: nat, kind: GameOption -> bool) {
    i < |os| && kind(os[i]) && forall j :: i < j < |os| ==> !kind(os[j])
  }

  predicate SetsLimit(o: GameOption) { o.WithMaxAttempts? }
  predicate SetsDictionary(o: GameOption) { o.WithDictionary? }
  predicate SetsFilters(o: GameOption) { o.WithWordFilters? }
  predicate SetsAnswer(o: GameOption) { o.WithAnswer? || o.WithUnknownAnswer? }

  lemma {:induction false} LastOfFewer(os: seq<GameOption>, i: nat, kind: GameOption -> bool)
    requires Last(os, i, kind) && i < |os| - 1
    ensures Last(os[..|os| - 1], i, kind) && !kind(os[|os| - 1])
  {
    assert forall j :: 0 <= j < |os| - 1 ==> os[..|os| - 1][j] == os[j];
  }

  /** If there are options of a kind, one of them is the last. */
  lemma {:induction false} LastExists(os: seq<GameOption>, k: nat, kind: GameOption -> bool) returns (i: nat)
    requires k < |os| && kind(os[k])
    ensures k <= i && Last(os, i, kind)
    decreases |os| - k
  {
    i := k;
    if j :| k < j < |os| && kind(os[j]) {
      i := LastExists(os, j, kind);
    }
  }

  /** What is set is what the last option of each kind says; an unknown answer is as many
      blanks. */
  lemma {:induction false} LastOptionSets(s: Setup, os: seq<GameOption>, i: nat)
    ensures var t := ApplyOptions(s, os);
      && (Last(os, i, SetsLimit) ==> t.max == os[i].n)
      && (Last(os, i, SetsDictionary) ==> t.dictionary == os[i].words)
      && (Last(os, i, SetsFilters) ==> t.filters == os[i].filters)
  {
    if i < |os| - 1 {
      LastOptionSets(s, os[..|os| - 1], i);
      if Last(os, i, SetsLimit) {
        LastOfFewer(os, i, SetsLimit);
      }
      if Last(os, i, SetsDictionary) {
        LastOfFewer(os, i, SetsDictionary);
      }
      if Last(os, i, SetsFilters) {
        LastOfFewer(os, i, SetsFilters);
      }
    }
  }

  lemma {:induction false} LastAnswerSets(s: Setup, os: seq<GameOption>, i: nat)
    requires Last(os, i, SetsAnswer)
    ensures var t := ApplyOptions(s, os);
      if os[i].WithAnswer? then t.answer == os[i].answer
      else Blank(t.answer, os[i].wordLen)
  {
    if i < |os| - 1 {
      LastOfFewer(os, i, SetsAnswer);
      LastAnswerSets(s, os[..|os| - 1], i);
    }
  }

  /** Once an unknown answer is asked for it stays so; without an option for it the answer
      is left open. */
  lemma {:induction false} AnswerOptions(s: Setup, os: seq<GameOption>)
    ensures ApplyOptions(s, os).unknown <==> s.unknown || exists i :: 0 <= i < |os| && os[i].WithUnknownAnswer?
    ensures (forall i :: 0 <= i < |os| ==> !SetsAnswer(os[i])) ==> ApplyOptions(s, os).answer == s.answer
  {
    if os != [] {
      var n := |os| - 1;
      AnswerOptions(s, os[..n]);
      assert forall j :: 0 <= j < n ==> os[..n][j] == os[j];
    }
  }

  /** Since the defaults set all that no option clears, applying the options again
      to a used object, with the answer emptied, configures it as the first time. */
  lemma {:induction false} OptionsReapply(s: Setup, os: seq<GameOption>, n: nat)
    requires HasDefaults(os) && n <= |os| && s.answer == ""
    requires s.unknown ==> Configured(os).unknown
    ensures var again, first := ApplyOptions(s, os[..n]), ApplyOptions(Setup("", false, os[0].words, 0, []), os[..n]);
      && again.answer == first.answer
      && again.unknown == (first.unknown || s.unknown)
      && (n >= 1 ==> again.dictionary == first.dictionary)
      && (n >= 2 ==> again.max == first.max)
      && (n >= 3 ==> again.filters == first.filters)
  {
    if n > 0 {
      OptionsReapply(s, os, n - 1);
      assert os[..n][..n - 1] == os[..n - 1];
    }
    assert os[..|os|] == os;
  }

  /** A limit, a dictionary, filters and a mode are those that the last options say. */
  ghost predicate SetAs(os: seq<GameOption>, max: int, dictionary: array<string>, filters: seq<Filter>, unknown: bool) {
    && (exists i: nat :: Last(os, i, SetsLimit) && max == os[i].n)
    && (exists i: nat :: Last(os, i, SetsDictionary) && dictionary == os[i].words)
    && (exists i: nat :: Last(os, i, SetsFilters) && filters == os[i].filters)
    && (unknown <==> exists i :: 0 <= i < |os| && os[i].WithUnknownAnswer?)
  }

  predicate Blank(answer: string, wordLen: nat) {
    |answer| == wordLen && forall k :: 0 <= k < wordLen ==> answer[k] == ' '
  }

  /** An answer is the one that the last option for it says, blanks if it is to be
      unknown, and some allowed word if there is no such option. */
  ghost predicate AnsweredAs(os: seq<GameOption>, answer: string, allowed: seq<string>) {
    && (forall i: nat :: Last(os, i, SetsAnswer) ==>
          if os[i].WithUnknownAnswer? then Blank(answer, os[i].wordLen)
          else os[i].answer != "" ==> answer == os[i].answer)
    && ((forall i :: 0 <= i < |os| ==> !SetsAnswer(os[i])) ==> answer in allowed)
  }

  lemma {:induction false} ConfiguredAsSaid(os: seq<GameOption>)
    requires HasDefaults(os)
    ensures var t := Configured(os); SetAs(os, t.max, t.dictionary, t.filters, t.unknown)
  {
    var s := Setup("", false, os[0].words, 0, []);
    AnswerOptions(s, os);
    var limit := LastExists(os, 1, SetsLimit);
    var dictionary := LastExists(os, 0, SetsDictionary);
    var filters := LastExists(os, 2, SetsFilters);
    LastOptionSets(s, os, limit);
    LastOptionSets(s, os, dictionary);
    LastOptionSets(s, os, filters);
  }

  lemma {:induction false} OpenAnswer(os: seq<GameOption>, answer: string, allowed: seq<string>)
    requires HasDefaults(os)
    requires var t := Configured(os);
      if t.unknown || t.answer != "" then answer == t.answer else answer in allowed
    ensures AnsweredAs(os, answer, allowed)
  {
    var s := Setup("", false, os[0].words, 0, []);
    AnswerOptions(s, os);
    forall i: nat | Last(os, i, SetsAnswer)
      ensures if os[i].WithUnknownAnswer? then Blank(answer, os[i].wordLen)
              else os[i].answer != "" ==> answer == os[i].answer
    {
      LastAnswerSets(s, os, i);
    }
  }

  datatype Reply = Recorded(s: Scored) | Rejected(why: Verdict)

  class Game {
    var alphabets: LetterMap
    var answer: string
    var answerUnknown: bool
    var attempts: seq<Scored>
    var dictionary: array<string>
    var dictionarySet: set<string>
    var maxAttempts: int
    const options: seq<GameOption>
    ghost const setup: Setup
    var solved: bool
    var wordFilters: seq<Filter>
    var wordsAllowed: array<string>
    /** How the first game began, and what has been done to the object since. */
    ghost var first: Op
    ghost var history: seq<Op>

    function State(): Play
      reads `attempts, `alphabets, `solved
    {
      Play(attempts, alphabets, solved)
    }

    /** The parts that only New and Reset set. */
    ghost predicate Ready()
      reads `maxAttempts, `answerUnknown, `dictionary, `wordFilters, `wordsAllowed, `dictionarySet, `answer
      reads dictionary, wordsAllowed
    {
      && setup.max >= 0 && maxAttempts >= 0
      && answerUnknown == setup.unknown && dictionary == setup.dictionary && wordFilters == setup.filters
      && wordsAllowed != dictionary
      && wordsAllowed.Length > 0
      && multiset(wordsAllowed[..]) == multiset(Keep(dictionary[..], Allowed(wordFilters)))
      && dictionarySet == (set w | w in dictionary[..])
      && (if setup.unknown || setup.answer != "" then answer == setup.answer else answer in wordsAllowed[..])
    }

    /** The parts that attempts change. */
    ghost predicate Playable()
      reads `attempts, `solved, `maxAttempts, `answer
    {
      && |attempts| <= maxAttempts && (solved ==> attempts != [])
      && forall k :: 0 <= k < |attempts| ==> |attempts[k].result| <= |attempts[k].answer| == |answer|
    }

    function Now(): Session
      reads `attempts, `alphabets, `solved, `answer, `maxAttempts, `wordsAllowed, wordsAllowed
    {
      Session(State(), answer, maxAttempts, wordsAllowed[..])
    }

    /** A known-answer game stands where its history has led. */
    ghost predicate Historic()
      reads this, wordsAllowed
    {
      first.NewGame? && (setup.unknown || Now() == SessionRun(first, dictionarySet, setup.max, history))
    }

    ghost predicate Valid()
      reads this, dictionary, wordsAllowed
    {
      Ready() && Playable() && Historic()
    }

    /** So whatever has been done to it, in any order, a known-answer game is sound. */
    lemma {:induction false} ObjectIsSound()
      requires Valid() && !setup.unknown
      ensures SoundKnown(State(), answer, dictionarySet, maxAttempts)
      ensures multiset(wordsAllowed[..]) == multiset(ListAtStart(first, history))
    {
      SessionsAreSound(first, dictionarySet, setup.max, history);
    }

    /** Bookkeeping only: op has just been done. */
    ghost method Log(before: Session, op: Op)
      requires first.NewGame? && Ready() && Playable()
      requires setup.unknown || before == SessionRun(first, dictionarySet, setup.max, history)
      requires setup.unknown || Now() == SessionStep(before, dictionarySet, setup.max, op)
      modifies this`history
      ensures Valid() && history == old(history) + [op]
      ensures Now() == old(Now()) && State() == old(State())
    {
      assert (history + [op])[..|history|] == history;
      history := history + [op];
    }

    // ----------------------------------------------------- New and Reset

    /** New: defaults first, then the caller's options.  The object exists even
        when the word list comes out empty; New then returns the error instead. */
    constructor (os: seq<GameOption>)
      requires HasDefaults(os)
      ensures options == os && setup == Configured(os) && !answerUnknown && maxAttempts == 0
      ensures dictionary == os[0].words
      ensures fresh(wordsAllowed)
    {
      options := os;
      setup := Configured(os);
      alphabets, answer, answerUnknown, attempts, solved := map[], "", false, [], false;
      first, history := AskHints, [];
      dictionary, dictionarySet, maxAttempts, wordFilters := os[0].words, {}, 0, [];
      wordsAllowed := new string[0];
    }

    /** setup records what the options configure; neither ever changes. */
    ghost predicate Configuring() {
      HasDefaults(options) && setup == Configured(options)
    }

    ghost function Current(): Setup
      reads this
    {
      Setup(answer, answerUnknown, dictionary, maxAttempts, wordFilters)
    }

    /** The object is set up as the last option of each kind says. */
    ghost predicate FollowsOptions()
      reads `maxAttempts, `answerUnknown, `dictionary, `wordFilters, `wordsAllowed, `answer, wordsAllowed
    {
      && SetAs(options, maxAttempts, dictionary, wordFilters, answerUnknown)
      && AnsweredAs(options, answer, wordsAllowed[..])
    }

    lemma {:induction false} ReadyFollows()
      requires Configuring() && Ready() && maxAttempts == setup.max
      ensures FollowsOptions()
    {
      ConfiguredAsSaid(options);
      OpenAnswer(options, answer, wordsAllowed[..]);
    }

    method ApplyAllOptions()
      requires Configuring() && answer == ""
      requires answerUnknown ==> setup.unknown
      modifies this`answer, this`answerUnknown, this`dictionary, this`maxAttempts, this`wordFilters
      ensures Current() == setup && maxAttempts == setup.max
    {
      ghost var s := Current();
      for k := 0 to |options|
        invariant Current() == ApplyOptions(s, options[..k])
      {
        match options[k] {
          case WithAnswer(a) => answer := a;
          case WithDictionary(d) => dictionary := d;
          case WithMaxAttempts(n) => maxAttempts := n;
          case WithWordFilters(fs) => wordFilters := fs;
          case WithUnknownAnswer(len) => answer := seq(len, _ => ' '); answerUnknown := true;
        }
        assert options[..k + 1][..k] == options[..k];
      }
      OptionsReapply(s, options, |options|);
      assert options[..|options|] == options;
    }

    method BuildDictionarySet()
      modifies this`dictionarySet
      ensures dictionarySet == set w | w in dictionary[..]
    {
      dictionarySet := {};
      for k := 0 to dictionary.Length
        invariant dictionarySet == set w | w in dictionary[..k]
      {
        assert dictionary[..k + 1] == dictionary[..k] + [dictionary[k]];
        dictionarySet := dictionarySet + {dictionary[k]};
      }
      assert dictionary[..dictionary.Length] == dictionary[..];
    }

    /** Unless one is given, any allowed word may become the answer. */
    method DrawAnswer()
      requires wordsAllowed.Length > 0
      modifies this`answer
      ensures if answerUnknown || old(answer) != "" then answer == old(answer) else answer in wordsAllowed[..]
    {
      if !answerUnknown && answer == "" {
        var pick :| 0 <= pick < wordsAllowed.Length;
        answer := wordsAllowed[pick];
      }
    }

    method StartPlay()
      requires Ready()
      modifies this`alphabets, this`attempts, this`solved
      ensures State() == NewPlay && Playable() && Ready()
    {
      alphabets := FreshMap();
      attempts := [];
      solved := false;
    }

    /** The first half of init: the options, and the words they allow. */
    method Prepare()
      requires Configuring() && (answerUnknown ==> setup.unknown)
      modifies this`answer, this`answerUnknown, this`dictionary, this`maxAttempts, this`wordFilters, this`wordsAllowed
      ensures answerUnknown == setup.unknown && dictionary == setup.dictionary && wordFilters == setup.filters
      ensures maxAttempts == setup.max && answer == setup.answer
      ensures fresh(wordsAllowed) && wordsAllowed[..] == Keep(dictionary[..], Allowed(wordFilters))
    {
      answer := "";
      ApplyAllOptions();
      wordsAllowed := Apply(wordFilters, dictionary);
    }

    /** The second half: the dictionary as a set, and an answer. */
    method Complete()
      requires setup.max >= 0 && maxAttempts == setup.max && answer == setup.answer
      requires answerUnknown == setup.unknown && dictionary == setup.dictionary && wordFilters == setup.filters
      requires wordsAllowed != dictionary && wordsAllowed.Length > 0
      requires wordsAllowed[..] == Keep(dictionary[..], Allowed(wordFilters))
      modifies this`dictionarySet, this`answer
      ensures Ready()
    {
      BuildDictionarySet();
      DrawAnswer();
    }

    /** init: shared by New and Reset. */
    method Init() returns (ok: bool)
      requires Configuring() && setup.max >= 0 && (answerUnknown ==> setup.unknown)
      modifies this`answer, this`answerUnknown, this`dictionary, this`maxAttempts, this`wordFilters,
        this`wordsAllowed, this`dictionarySet, this`alphabets, this`attempts, this`solved
      ensures ok <==> Keep(setup.dictionary[..], Allowed(setup.filters)) != []
      ensures fresh(wordsAllowed) && maxAttempts == setup.max
      ensures ok ==> Ready() && Playable() && State() == NewPlay
    {
      Prepare();
      ok := wordsAllowed.Length > 0;
      if ok {
        Launch();
      }
    }

    method Launch()
      requires setup.max >= 0 && maxAttempts == setup.max && answer == setup.answer
      requires answerUnknown == setup.unknown && dictionary == setup.dictionary && wordFilters == setup.filters
      requires wordsAllowed != dictionary && wordsAllowed.Length > 0
      requires wordsAllowed[..] == Keep(dictionary[..], Allowed(wordFilters))
      modifies this`dictionarySet, this`answer, this`alphabets, this`attempts, this`solved
      ensures Ready() && Playable() && State() == NewPlay
    {
      Complete();
      StartPlay();
    }

    /** New, on the fresh object. */
    method New() returns (ok: bool)
      requires Configuring() && setup.max >= 0 && !answerUnknown
      modifies this
      ensures ok <==> Keep(setup.dictionary[..], Allowed(setup.filters)) != []
      ensures ok ==> Valid() && State() == NewPlay && maxAttempts == setup.max && history == []
      ensures ok ==> FollowsOptions()
    {
      ok := Init();
      if ok {
        ReadyFollows();
        Begin();
      }
    }

    /** Bookkeeping only: a first game begins. */
    ghost method Begin()
      requires State() == NewPlay && maxAttempts == setup.max && Ready() && Playable()
      modifies this`first, this`history
      ensures Valid() && first == NewGame(answer, wordsAllowed[..]) && history == [] && State() == NewPlay
    {
      first, history := NewGame(answer, wordsAllowed[..]), [];
      assert SessionRun(first, dictionarySet, setup.max, []) == Session(NewPlay, answer, setup.max, wordsAllowed[..]);
      assert Ready() && Playable();
    }

    /** Once a game has been set up, Reset never fails and starts a new one. */
    method Reset() returns (ok: bool)
      requires Valid() && Configuring()
      modifies this
      ensures ok && Valid() && fresh(wordsAllowed)
      ensures Now() == SessionStep(old(Now()), dictionarySet, setup.max, NewGame(answer, wordsAllowed[..]))
      ensures history == old(history) + [NewGame(answer, wordsAllowed[..])]
      ensures State() == NewPlay && FollowsOptions()
      ensures dictionary == old(dictionary) && dictionary[..] == old(dictionary[..])
    {
      ok := Restart();
      ReadyFollows();
      Log(old(Now()), NewGame(answer, wordsAllowed[..]));
    }

    method Restart() returns (ok: bool)
      requires Ready() && Configuring()
      modifies this
      ensures ok && Ready() && Playable() && fresh(wordsAllowed)
      ensures Now() == Session(NewPlay, answer, setup.max, wordsAllowed[..])
      ensures first == old(first) && history == old(history) && dictionarySet == old(dictionarySet)
      ensures dictionary == old(dictionary) && dictionary[..] == old(dictionary[..])
    {
      assert |multiset(wordsAllowed[..])| == wordsAllowed.Length;
      ok := Init();
    }

    // ---------------------------------------------------------- attempting

    method ComputeAttempt(word: string) returns (s: Scored)
      requires |word| == |answer|
      modifies this`alphabets
      ensures s == Scored(word, Score(word, answer))
      ensures alphabets == KnownTiles(old(alphabets), word, s.result, |word|)
    {
      var attempt := new Attempt(word);
      var ok := attempt.ComputeResult(answer);
      ghost var before := alphabets;
      for idx := 0 to |word|
        invariant attempt.Result == Score(word, answer)
        invariant alphabets == KnownTiles(before, word, attempt.Result, idx)
      {
        var c := word[idx];
        match attempt.Result[idx] {
          case NotPresent =>
            if StatusOf(alphabets, c) == Unknown {
              alphabets := alphabets[c := NotPresent];
            }
          case WrongLocation =>
            if StatusOf(alphabets, c) != CorrectLocation {
              alphabets := alphabets[c := WrongLocation];
            }
          case CorrectLocation =>
            alphabets := alphabets[c := CorrectLocation];
          case Unknown =>
        }
      }
      s := Scored(word, attempt.Result);
    }

    method Validate(word: string) returns (v: Verdict)
      ensures v == if answerUnknown then UnknownVerdict(State(), |answer|, word)
                   else KnownVerdict(State(), answer, dictionarySet, word)
    {
      if |word| != |answer| {
        return WrongLength;
      }
      for k := 0 to |attempts|
        invariant forall j :: 0 <= j < k ==> attempts[j].answer != word
      {
        if word == attempts[k].answer {
          return AlreadyTried;
        }
      }
      if !answerUnknown && word !in dictionarySet {
        return NotAWord;
      }
      return Verdict.Valid;
    }

    method AttemptKnown(word: string) returns (reply: Reply)
      requires !answerUnknown && !State().Over(maxAttempts) && Playable()
      modifies this`alphabets, this`attempts, this`solved
      ensures Playable()
      ensures State() == KnownStep(old(State()), answer, dictionarySet, maxAttempts, word)
      ensures reply == var v := KnownVerdict(old(State()), answer, dictionarySet, word);
        if v == Verdict.Valid then Recorded(Scored(word, Score(word, answer))) else Rejected(v)
    {
      var v := Validate(word);
      if v != Verdict.Valid {
        return Rejected(v);
      }
      var s := ComputeAttempt(word);
      if s.answer == answer {
        solved := true;
      }
      attempts := attempts + [s];
      return Recorded(s);
    }

    method AttemptUnknown(word: string, result: seq<Status>) returns (reply: Reply)
      requires answerUnknown && !State().Over(maxAttempts) && Playable()
      requires |result| <= |word|
      modifies this`alphabets, this`attempts, this`solved
      ensures Playable()
      ensures State() == UnknownStep(old(State()), |answer|, maxAttempts, word, result)
      ensures reply == var v := UnknownVerdict(old(State()), |answer|, word);
        if v == Verdict.Valid then Recorded(Scored(word, result)) else Rejected(v)
    {
      var v := Validate(word);
      if v != Verdict.Valid {
        return Rejected(v);
      }
      MarkAndDrop(word, result);
      var correct := CountCorrect(result);
      solved := correct == |result|;
      attempts := attempts + [Scored(word, result)];
      return Recorded(Scored(word, result));
    }

    method CountCorrect(result: seq<Status>) returns (correct: nat)
      ensures correct == |result| <==> AllGreen(result)
    {
      correct := 0;
      for idx := 0 to |result|
        invariant correct <= idx && (correct == idx <==> forall k :: 0 <= k < idx ==> result[k] == CorrectLocation)
      {
        if result[idx] == CorrectLocation {
          correct := correct + 1;
        }
      }
    }

    /** The two passes over the reported result. */
    method MarkAndDrop(word: string, result: seq<Status>)
      requires |result| <= |word|
      modifies this`alphabets
      ensures alphabets == UnknownTiles(old(alphabets), word, result)
    {
      ghost var before := alphabets;
      for idx := 0 to |result|
        invariant alphabets == MarkTiles(before, word, result, idx)
      {
        if result[idx] != NotPresent {
          alphabets := alphabets[word[idx] := result[idx]];
        }
      }
      ghost var marked := alphabets;
      for idx := 0 to |result|
        invariant alphabets == DropTiles(marked, word, result, idx)
      {
        if result[idx] == NotPresent &&
           StatusOf(alphabets, word[idx]) != WrongLocation && StatusOf(alphabets, word[idx]) != CorrectLocation {
          alphabets := alphabets - {word[idx]};
        }
      }
    }

    /** What the reply to an attempt on a live game tells: the attempt that was recorded,
        or why it was refused. */
    predicate Tells(reply: Reply, before: Play, word: string)
      reads `attempts, `alphabets, `solved, `answer
    {
      match reply
      case Recorded(s) => s.answer == word && attempts == before.attempts + [s]
      case Rejected(why) =>
        && State() == before && why != Verdict.Valid
        && (why == WrongLength <==> |word| != |answer|)
        && (why == AlreadyTried <==> |word| == |answer| && before.Tried(word))
    }

    /** A finished game does not change: its last attempt is given again. */
    method Attempt(word: string, result: seq<Status>) returns (reply: Reply)
      requires Valid() && (answerUnknown ==> |result| <= |word|) && (State().Over(maxAttempts) ==> attempts != [])
      modifies this`alphabets, this`attempts, this`solved, this`history
      ensures Valid() && history == old(history) + [Try(word)]
      ensures answerUnknown ==> State() == UnknownStep(old(State()), |answer|, maxAttempts, word, result)
      ensures !answerUnknown ==> Now() == SessionStep(old(Now()), dictionarySet, setup.max, Try(word))
      ensures old(State()).Over(maxAttempts) ==> |attempts| > 0 && reply == Recorded(attempts[|attempts| - 1])
      ensures !old(State()).Over(maxAttempts) ==> Tells(reply, old(State()), word)
    {
      reply := AttemptByMode(word, result);
      Log(old(Now()), Try(word));
    }

    method AttemptByMode(word: string, result: seq<Status>) returns (reply: Reply)
      requires Ready() && Playable()
      requires (answerUnknown ==> |result| <= |word|) && (State().Over(maxAttempts) ==> attempts != [])
      modifies this`alphabets, this`attempts, this`solved
      ensures Ready() && Playable()
      ensures answerUnknown ==> State() == UnknownStep(old(State()), |answer|, maxAttempts, word, result)
      ensures !answerUnknown ==> Now() == SessionStep(old(Now()), dictionarySet, setup.max, Try(word))
      ensures old(State()).Over(maxAttempts) ==> |attempts| > 0 && reply == Recorded(attempts[|attempts| - 1])
      ensures !old(State()).Over(maxAttempts) ==> Tells(reply, old(State()), word)
    {
      if State().Over(maxAttempts) {
        reply := Recorded(attempts[|attempts| - 1]);
      } else if answerUnknown {
        reply := AttemptUnknown(word, result);
      } else {
        reply := AttemptKnown(word);
      }
      TryIsStep(old(Now()), dictionarySet, setup.max, word);
    }

    // ------------------------------------------------------------- the rest

    /** Hints may reorder the allowed words; nothing else changes, and the shared
        dictionary is another array. */
    method Hints() returns (hints: seq<string>)
      requires Valid()
      requires !solved ==>
        Searchable(wordsAllowed[..], attempts, alphabets) && Scorable(wordsAllowed[..], attempts, alphabets)
      modifies wordsAllowed, this`history
      ensures Valid() && dictionary[..] == old(dictionary[..]) && history == old(history) + [AskHints]
      ensures Now() == SessionStep(old(Now()), dictionarySet, setup.max, AskHints)
      ensures hints == if solved then [] else HintsFor(old(wordsAllowed[..]), attempts, alphabets)
      ensures solved ==> wordsAllowed[..] == old(wordsAllowed[..])
      ensures multiset(wordsAllowed[..]) == old(multiset(wordsAllowed[..]))
    {
      hints := [];
      if !solved {
        hints := RankAllowed();
      }
      Log(old(Now()), AskHints);
    }

    method RankAllowed() returns (hints: seq<string>)
      requires Searchable(wordsAllowed[..], attempts, alphabets) && Scorable(wordsAllowed[..], attempts, alphabets)
      modifies wordsAllowed
      ensures wordsAllowed[..] == ListAfter(old(wordsAllowed[..]), attempts, alphabets)
      ensures multiset(wordsAllowed[..]) == old(multiset(wordsAllowed[..]))
      ensures forall w :: w in wordsAllowed[..] <==> w in old(wordsAllowed[..])
      ensures hints == HintsFor(old(wordsAllowed[..]), attempts, alphabets)
    {
      SamePermuted(wordsAllowed[..], attempts, alphabets);
      hints := GenerateHints(wordsAllowed, attempts, alphabets);
    }

    method SetLimit(limit: int)
      requires Ready() && Playable() && limit >= |attempts|
      modifies this`maxAttempts
      ensures Ready() && Playable() && Now() == old(Now()).(max := limit)
    {
      maxAttempts := limit;
    }

    method DecrementMaxAttempts() returns (done: bool)
      requires Valid()
      modifies this`maxAttempts, this`history
      ensures Valid() && Now() == SessionStep(old(Now()), dictionarySet, setup.max, FewerAttempts)
      ensures (done <==> maxAttempts != old(maxAttempts)) && history == old(history) + [FewerAttempts]
      ensures done <==> |attempts| + 1 < old(maxAttempts) && old(maxAttempts) != 1
      ensures maxAttempts == if done then old(maxAttempts) - 1 else old(maxAttempts)
    {
      done := !(|attempts| >= maxAttempts - 1 || maxAttempts == 1);
      if done {
        SetLimit(maxAttempts - 1);
      }
      Log(old(Now()), FewerAttempts);
    }

    method IncrementMaxAttempts()
      requires Valid()
      modifies this`maxAttempts, this`history
      ensures Valid() && Now() == SessionStep(old(Now()), dictionarySet, setup.max, MoreAttempts)
      ensures history == old(history) + [MoreAttempts] && maxAttempts == old(maxAttempts) + 1
    {
      SetLimit(maxAttempts + 1);
      Log(old(Now()), MoreAttempts);
    }
  }

  lemma {:induction false} SamePermuted(words: seq<string>, attempts: seq<Scored>, m: LetterMap)
    ensures multiset(ListAfter(words, attempts, m)) == multiset(words)
    ensures forall w :: w in ListAfter(words, attempts, m) <==> w in words
    ensures |ListAfter(words, attempts, m)| == |words|
  {
    ListOnlyPermuted(words, attempts, m);
    var after := ListAfter(words, attempts, m);
    assert forall w :: w in after <==> w in multiset(after);
    assert forall w :: w in words <==> w in multiset(words);
    assert |after| == |multiset(after)| == |words|;
  }
}
