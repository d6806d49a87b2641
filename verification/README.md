# Word game, router, balancer and throttler: a verified model

A Dafny model of the four parts of the system that carry real rules, each proved against
an independent reading of what it is for.

**The word game** (`server/internal/game`). `Scoring` holds the two-phase scorer and the
multiset rules of the game, which the scorer meets and which determine it. `Letters` holds
the letter map under the known-answer and the unknown-answer rule; `GameRules` the steps of
both modes, what every run keeps, and the proof that the modes stay in step. `WordLists`,
`HintFilters` and `HintMeaning` hold the dictionary filters and compare them with re-scoring
every guess: always sound, exact without repeated letters, and what exactly is missed with
them. `Ranking` and `Hints` hold the branches of hint generation with its in-place sort, and
`HintChoice` says what each branch counts and that the hints are the words with the most.
`Wordle` is the game object, whose methods are proved to be those steps.

**The router** (`server/internal/router`). `RouteTable` is the flat reading: a list of
routes, which of them match, which one wins. `Trie` is the tree as a value (insert with its
prefix split, the three-pass backtracking search) and the refinement of the table;
`RouteParams` says exactly what is in the params map after a search, whatever the names. The
refinement needs limits on the table: static siblings with different first bytes, no wildcard
beside a static segment that sorts after it, no parameter named `*`. `RouteLimits` proves the
first two exact, a registration that breaks one loses a route, and shows what a parameter
named `*` does; `ServerRoutes` shows that the server's own table keeps them. `Router` is the
pointer structure that the program changes in place, proved against `Trie`;
`Paths` splits and joins paths.

**The throttler** (`proxy/internal/throttling`). `Throttle` is one route's protocol of small
steps: calls and the ends of spans, cut where they release a lock and interleaved at will,
and other nodes adding to the shared counters. `IntervalBound` bounds what a node can admit
in one interval under three assumptions about the calls: calm (none under way when a span is
swapped out, none let in until that span is dealt with), whole (only the first), free (neither).
`IntervalRuns` reaches the bounds for every configuration whose spans divide the interval, and
so says exactly when MaxRequests is kept and when the calm bound needs its assumptions.
`Chain` lets any number of requests pass several levels at once while every level ends its own
spans, and `Completions` says for which chains the limits also bound what completes them in a
span. `Throttler` and `Hierarchy` are the objects with their maps and the chain of levels.

**The load balancer** (`proxy/internal/balancer`). `RoundRobin` (32-bit counter, wrap-around,
fairness) and `Weighted` (selection by running sums) are the selections. `Retries` is the
protocol of requests that fail and are retried, any number at once, cut where they release a
lock, with the health checks in between: what bounds a chain of retries, when it ends in 503,
and what only a request that nobody disturbs can rely on. `RetryAlone` is one such request as a
whole, and `Balancer` holds the objects, whose methods are proved to be such runs.

Strings are sequences of characters that stand for bytes, as Go compares and indexes them.
A map read of a missing key gives the zero value, which for a letter is "not present".
Counters are unbounded integers except the 32-bit round-robin counter. Random choices are
any value in range; clocks, the reachability of the store and the outcome of backend calls
are inputs.

Where code and comments disagree the model follows the code: server/internal/router/router.go:104
and :119 promise "static, then param, then wildcard", but node.go:34 sorts a wildcard among the
static segments by its byte, and the static pass stops at it (`RouteLimits.LandsBehindWildcard`,
`RouteLimits.WildcardComesFirst`).

Consequences of the code that its names and comments do not mention:

- The first pass of unknown mode may turn a green letter yellow; the promise at
  server/internal/game/wordle.go:152 is about the second pass, which keeps it
  (`Letters.UnknownModeDowngrades`, and `Letters.MapsAgreeIff` for exactly when).
- One node keeps `MaxRequests` per `Interval` only if the limit is zero or the interval is a
  single span (`IntervalRuns.LimitIsKeptIff`).
- An answer below 500 clears the fail count of the backend chosen first, even when another
  backend gave the answer (`Balancer.LoadBalancer.Serve`).
- A request may end in 503 after a single call, however large the budget of retries was when
  it was chosen, if other requests use it up (`Retries.AlwaysExactIff`).

## Model

| member | source | states |
|---|---|---|
| Scoring.Attempt.ComputeResult | server/internal/game/attempt.go:11-51 | The loops over the consumed frequency map fail exactly on different lengths and leave the result alone then; otherwise every tile is the one the closed form `Score` gives. |
| Scoring.Attempt.MarkRest | server/internal/game/attempt.go:35-48 | Phase 2 gives each non-green tile yellow or grey by how many copies are left, in place, over a frequency map that never goes below zero. |
| Scoring.ScoreMeetsSpec | server/internal/game/attempt.go:19-48 | The score obeys the rules of the game: green exactly on matching places, for every letter as many coloured tiles as the two words share copies, yellows left of greys. |
| Scoring.SpecIsUnique | server/internal/game/attempt.go:19-48 | The rules leave no choice: whatever result obeys them is the score. |
| Scoring.AllGreenIffSolved | server/internal/game/attempt.go:28-33 | All tiles green if and only if the guess is the answer. |
| Scoring.ColouredIsSharedLetters | server/internal/game/attempt.go:19-48 | The coloured letters are exactly the multiset the words have in common, so their number is symmetric in guess and answer. |
| Letters.KnownMapIsKnowledge | server/internal/game/wordle.go:203-223 | After any known-answer guesses: unknown iff never guessed, absent iff guessed and not in the answer, correct iff some guess placed it, else wrong location; despite the transient grey. |
| Letters.LetterMapIgnoresOrder | server/internal/game/wordle.go:203-223 | Runs over the same set of guesses, in any order and with any repetition, leave the same map. |
| Letters.UnknownMapIsLastMark | server/internal/game/wordle.go:145-160 | The two passes, fed honest results, keep the last coloured tile of each letter of the answer that was guessed. |
| Letters.ReportedTiles | server/internal/game/wordle.go:145-160 | For any reported result: a letter takes its last coloured tile; with grey tiles alone it is absent unless known to be present; without tiles it keeps its status. |
| Letters.UnknownMapClass | server/internal/game/wordle.go:145-160 | Both modes agree on every letter being absent, present or untried. |
| Letters.MapsAgreeIff | server/internal/game/wordle.go:146-151 | On green against yellow they agree if and only if a placed letter's last coloured tile is green. |
| Letters.UnknownModeDowngrades | server/internal/game/wordle.go:146-151 | A concrete run in which the unknown-answer rule turns green into yellow. |
| WordLists.Apply | server/internal/game/filters.go:33-41 | The result is a new array with exactly the words that pass every filter, in order. |
| WordLists.Allow | server/internal/game/filters.go:44-51 | True iff no filter rejects the word. |
| WordLists.KeepInOrder | server/internal/game/filters.go:33-41 | The words kept stand in the order of the list, one for each passing place. |
| WordLists.HasNoRepeatingCharacters | server/internal/game/filters.go:15-27 | The pass over the table of seen letters is true iff no two places hold the same letter. |
| WordLists.NoRepeatsIffAllCount | server/internal/game/filters.go:15-27 | A word has no repeated letter iff it has as many different letters as places. |
| HintFilters.FilterWordsWithLettersNotPresent | server/internal/game/hints.go:196-204 | Keeps in order exactly the words without any of the letters. |
| HintFilters.HasLetterFrom | server/internal/game/hints.go:207-214 | True iff some place holds one of the letters. |
| HintFilters.BuildKnownCharacterLocationMap | server/internal/game/hints.go:88-107 | A place is recorded for a letter iff some attempt shows that letter there with that status. |
| HintFilters.FilterWordsWithLettersInWrongLocations | server/internal/game/hints.go:166-194 | Keeps exactly the words with every green letter in its place and no yellow letter in its place, for all attempts. |
| HintFilters.HasAllLetters | server/internal/game/hints.go:227-234 | True iff the word has every letter, in whatever order the map is read. |
| HintFilters.FilterWordsWithoutLetters | server/internal/game/hints.go:216-224 | Keeps in order exactly the words with all of the letters. |
| HintFilters.CandidatesKeepPassing | server/internal/game/hints.go:44-46 | The three filters in a row keep exactly the words that pass all three. |
| HintMeaning.BothModesSummarise | server/internal/game/wordle.go:138-223 | The map of either mode knows of every letter whether it is absent, present or untried, so both feed the filters the same letters. |
| HintMeaning.ConsistentWordsPass | server/internal/game/hints.go:166-234 | Soundness with repeated letters: every word that would have scored all guesses as recorded passes the filters, the answer always. |
| HintMeaning.ConsistentIffPassesAndRepeatsAgree | server/internal/game/hints.go:88-107 | The exact gap: a word is consistent iff it passes and also agrees on the count and grey places of the letters that a guess repeats. |
| HintMeaning.FiltersAreExact | server/internal/game/hints.go:44-46 | If no guess repeats a letter the pipeline keeps exactly the words that re-scoring every guess would keep, in the same order, for any number of guesses. |
| HintMeaning.RepeatedLettersEscape | server/internal/game/hints.go:88-107 | A concrete guess with a repeated letter after which an inconsistent word survives. |
| HintMeaning.CandidatesShrink | server/internal/game/hints.go:44-46 | A further attempt only removes candidates, and keeps their order. |
| Ranking.RankingIsUnique | server/internal/game/hints.go:289-296 | Two rankings of the same words by scores that agree on them are the same list, so the sorting algorithm does not matter. |
| Ranking.SortByRanks | server/internal/game/hints.go:289-296 | The sort permutes its words; the higher score stands first, and of equal scores the word earlier in the alphabet. |
| Ranking.SortInPlace | server/internal/game/hints.go:272-298 | Sorts the caller's own array in place: a permutation, the higher score first, ties alphabetical. |
| Ranking.SortIgnoresOrder | server/internal/game/hints.go:289-296 | The sorted list does not depend on the order of the words. |
| Lex.LessIffFirstDifference | server/internal/game/hints.go:289-296 | The alphabetical order of ties is decided at the first place where the words differ, a proper prefix first. |
| Hints.SumDistinctLetters | server/internal/game/hints.go:111-147 | The shared scoring loop sums the value of each letter once, however often the word has it. |
| Hints.BuildCharacterFrequencyMap | server/internal/game/hints.go:78-86 | Every letter's count over all the words, copies included. |
| Hints.FindMissingLetters | server/internal/game/hints.go:259-270 | Exactly the letters of the words that are not among the given ones. |
| Hints.FindDifferingLetters | server/internal/game/hints.go:236-257 | Exactly the letters that only one of the words has. |
| Hints.CalculateMaximumWordLength | server/internal/game/hints.go:125-133 | The length of the longest word, zero for no words. |
| Hints.SortLetters | server/internal/game/hints.go:15-34 | The 26 letters go by status into the correct, absent, present and unknown sets. |
| Hints.FindMatches | server/internal/game/hints.go:36-47 | The untried-letters branch when more than twenty letters are unknown and enough are placed, the three filters if that gives nothing. |
| Hints.RankWords | server/internal/game/hints.go:49-67 | Which list is returned in each branch, and that the allowed words are sorted in place in two of them and untouched in the others. |
| Hints.GenerateHints | server/internal/game/hints.go:14-74 | The hints and the list left behind are those of the reference functions, for every dictionary, run and map. |
| Hints.HintsRespectTheGame | server/internal/game/hints.go:69-73 | At most five hints, all allowed words, none attempted before. |
| Hints.HintsAreTheBest | server/internal/game/hints.go:49-73 | When a branch ranks, hints with a higher score stand first, ties alphabetical; an eligible word is left out only if there are five, each with a higher score or the same and earlier in the alphabet. |
| HintChoice.HintsAre | server/internal/game/hints.go:14-74 | The hints in every branch without the code's scores: one match as it is; with three quarters of the longest word placed and four matches the allowed words with the most missing letters; with fewer placed and four letters that only one match has those with the most of these; else the matches whose letters hold the most places of the matches. |
| HintChoice.MatchesAre | server/internal/game/hints.go:36-47 | The matches: the allowed words of untried letters alone, if there are any, more than twenty letters are untried and enough are placed; otherwise the words that pass the filters. |
| HintChoice.DifferingAreInOneWord | server/internal/game/hints.go:236-257 | A letter is a differing one iff exactly one of the words has it. |
| HintChoice.FrequencyCounts | server/internal/game/hints.go:111-123 | The frequency score of a word is the number of places in all the words that hold one of its letters. |
| HintChoice.AmongCounts | server/internal/game/hints.go:272-298 | The other score is the number of different letters of the word among the given ones. |
| Hints.HintsIgnoreListOrder | server/internal/game/hints.go:272-298 | The hints do not depend on the order of the allowed words, so the sort one call leaves behind never changes a later answer. |
| Hints.ListOnlyPermuted | server/internal/game/hints.go:272-298 | The allowed words are only permuted. |
| GameRules.KnownStepKeepsSound | server/internal/game/wordle.go:85-136 | Every attempt, accepted or refused, keeps the game's invariant; a finished game does not change. |
| GameRules.RunsAreSound | server/internal/game/wordle.go:85-136 | After any inputs: attempts are distinct dictionary words, correctly scored, within the limit; solved iff the answer was attempted, and then last; the map is the one the guesses give. |
| GameRules.ModesStayInStep | server/internal/game/wordle.go:127-171 | Unknown mode fed honest results and known mode agree on attempts, solved, over, each letter's class and the candidates, whatever dictionary words are tried. |
| GameRules.CandidatesOfAGame | server/internal/game/hints.go:44-46 | In a real run the answer is never filtered out, consistent words survive, and without repeated letters the candidates are exactly the consistent words. |
| GameRules.SessionsAreSound | server/internal/game/wordle.go:78-136 | The invariant over every run of attempts, hints, limit changes and resets, in which hints only permute the allowed words. |
| GameRules.EarlierHintsDoNotMatter | server/internal/game/wordle.go:78-83 | Anywhere in a session the hints are those of the list as the game began, whatever hints were asked for before. |
| GameRules.LiveGamesGetHints | server/internal/game/hints.go:36-73 | Anywhere in a session a game that is not solved gets a hint if its answer was among the allowed words as it began. |
| GameRules.HonestGamesGetHints | server/internal/game/hints.go:36-73 | So does an unknown-answer game told honest results for allowed words. |
| GameRules.KnownAttemptsAre | server/internal/game/wordle.go:127-136 | An attempt of a known-answer game is taken iff the game is not over and the word is a new dictionary word of the right length; it is then recorded with its score; and which refusal has which reason. |
| GameRules.UnknownAttemptsAre | server/internal/game/wordle.go:138-171 | The same for an unknown-answer game with whatever result is reported: solved iff every reported tile is green. |
| GameRules.LimitsAndEndings | server/internal/game/wordle.go:107-121 | Lowering takes one off the limit iff that leaves an attempt to spare, and neither ends nor revives a game; raising adds one and leaves it over only if solved; attempts on a finished game change nothing. |
| Wordle.LastOptionSets | server/internal/game/options.go:30-41 | The limit, the dictionary and the filters are those of the last option of their kind. |
| Wordle.LastExists | server/internal/game/options.go:26-49 | If there are options of a kind one of them is the last. |
| Wordle.LastAnswerSets | server/internal/game/options.go:26-49 | The answer is the one of the last option for it, as many blanks if that asks for an unknown one. |
| Wordle.AnswerOptions | server/internal/game/options.go:26-49 | The answer is unknown iff some option says so, and left open if no option sets it. |
| Wordle.OptionsReapply | server/internal/game/wordle.go:225-232 | Applying the options again to a used object with the answer emptied configures it as the first time. |
| Wordle.Game.Init | server/internal/game/wordle.go:225-257 | Fails exactly when no dictionary word passes the filters; otherwise a fresh game with the configured limit, its own word list and a permitted answer. |
| Wordle.Game.New | server/internal/game/wordle.go:38-47 | The fresh object becomes a valid game with an empty history, set up as the last option of each kind says, or the error of init is passed on. |
| Wordle.Game.ObjectIsSound | server/internal/game/wordle.go:78-136 | A known-answer game object satisfies the invariant after whatever operations its history holds, and its list is a permutation of the one its last game began with. |
| Wordle.Game.Reset | server/internal/game/wordle.go:123-125 | Never fails on a game that was set up; starts a new one, set up as the options say, and leaves the dictionary alone. |
| Wordle.Game.ComputeAttempt | server/internal/game/wordle.go:203-223 | Records the score and updates the letter map tile by tile by the known-answer rule. |
| Wordle.Game.Validate | server/internal/game/wordle.go:173-201 | The first failed check decides: length, already tried, and in known mode not a dictionary word. |
| Wordle.Game.AttemptKnown | server/internal/game/wordle.go:127-136 | The object makes exactly the known-answer step and gives the score or the reason for refusal. |
| Wordle.Game.AttemptUnknown | server/internal/game/wordle.go:138-171 | The object makes exactly the unknown-answer step, solved iff every reported tile is green. |
| Wordle.Game.MarkAndDrop | server/internal/game/wordle.go:145-160 | The two passes over the reported result, in place on the map. |
| Wordle.Game.Attempt | server/internal/game/wordle.go:85-105 | A finished game gives its last attempt again and does not change; a live one makes the step of its mode and gives the attempt it recorded or the reason for refusal. |
| Wordle.Game.Hints | server/internal/game/wordle.go:78-83 | None when solved; otherwise the hints, with the allowed words permuted and the shared dictionary untouched. |
| Wordle.Game.DecrementMaxAttempts | server/internal/game/wordle.go:111-117 | Takes one off the limit iff an attempt is left to spare after that; says whether it did. |
| Wordle.Game.IncrementMaxAttempts | server/internal/game/wordle.go:119-121 | Adds one to the limit and keeps the game valid. |
| Paths.Compact | server/internal/router/router.go:160-169 | Compacting over the buffer being read leaves the non-empty parts in order at its front. |
| Paths.SplitPathInPlace | server/internal/router/router.go:160-169 | The non-empty parts between slashes. |
| Paths.SplitOfJoin | server/internal/router/router.go:160-169 | Splitting the join of non-empty slash-free segments gives them back. |
| Paths.SplitIsNormal | server/internal/router/router.go:160-169 | Splitting the join of any path's split equals its split. |
| Paths.JoinOfSplit | server/internal/router/router.go:160-169 | Joining what strings.Split gives restores the path, slash by slash. |
| Paths.SplitOfJoinedParts | server/internal/router/router.go:146-161 | And splitting a join gives the parts, empty ones included. |
| RouteTable.TruncateIsWellFormed | server/internal/router/router.go:57-63 | After truncation nothing follows a wildcard segment. |
| Router.TruncateCutsAt | server/internal/router/router.go:57-63 | What follows the first wildcard segment goes, and nothing else. |
| RouteTable.BestIsUnique | server/internal/router/router.go:98-104 | The table has at most one winner for a request. |
| Trie.SplitIs | server/internal/router/node.go:69-117 | A split at the longest common prefix, exactly: the node above has it, the old child the rest of its text, and the new segment is a second child with its own rest or ends at the node above. |
| Trie.NewChildOrdered | server/internal/router/node.go:24-44 | Putting a new child at its place keeps the order: statics sorted, then wildcard, then the one parameter. |
| Trie.InsertKeepsWF | server/internal/router/node.go:47-133 | Inserting within the limits keeps the whole tree's order and never changes a node's own part. |
| Trie.InsertEffect | server/internal/router/node.go:47-133 | An insertion changes one handler at one place, and creates exactly the missing nodes of its path, named after its segments. |
| Trie.BuildHolds | server/internal/router/node.go:47-133 | After any registrations within the limits every place holds the latest handler of its pattern and the name the first route gave it. |
| Trie.ChosenBeats | server/internal/router/router.go:105-152 | The search's choice beats every matching place with a handler: backtracking out of dead ends loses nothing. |
| Trie.FindChooses | server/internal/router/router.go:105-152 | The three passes with backtracking return the handler at that choice, or nothing if there is none. |
| Trie.LookupRefinesTable | server/internal/router/router.go:105-152 | The trie refines the flat table: exactly the handler of the latest best route, segment by segment static before parameter before wildcard; nothing iff no route serves the request. |
| Trie.OtherRoutesUndisturbed | server/internal/router/node.go:47-133 | A further route changes no lookup that it does not itself serve. |
| RouteParams.FailureAddsNothing | server/internal/router/router.go:128-137 | In any tree a failed search leaves no entry in the params map that was not there before. |
| RouteParams.FailedLookupLeavesNothing | server/internal/router/router.go:71-75 | A lookup that finds nothing leaves the map empty. |
| RouteParams.FailureForgets | server/internal/router/router.go:128-137 | A search that fails takes away exactly the names of the parameter places it tried, and changes nothing else. |
| RouteParams.TriedIsEntered | server/internal/router/router.go:128-137 | Those are names of parameter places that a prefix of the request leads to. |
| RouteParams.EnteredIsTried | server/internal/router/router.go:128-137 | And all of them. |
| RouteParams.FindBinds | server/internal/router/router.go:128-149 | In any intact tree, whatever its names, a successful search adds the bindings along its choice and takes away exactly the names it lost beside it. |
| RouteParams.LostAre | server/internal/router/router.go:128-137 | A name is lost if and only if a parameter place of that name, tried first and in vain, stands beside a step of the path and the path does not bind the name at that step or later. |
| RouteParams.BindsExactlyIff | server/internal/router/router.go:128-149 | From an empty map the search binds exactly what its choice says if and only if no such name was bound above. |
| RouteParams.LookupBindsBestRoute | server/internal/router/router.go:128-149 | In terms of the table: the lookup binds exactly the parameters of the best route, and `*` to the joined rest, if and only if no parameter place tried in vain takes a name bound above it. |
| RouteParams.DistinctNamesBind | server/internal/router/router.go:128-149 | With different names along every route nothing is ever lost. |
| RouteParams.RepeatedNameIsLost | server/internal/router/router.go:137 | With a name used twice on a path a dead end deletes the outer entry: a concrete table and request. |
| RouteLimits.FindReaches | server/internal/router/router.go:105-152 | In any tree, damaged or not, what the search finds it reached along whole-segment steps. |
| RouteLimits.SplitDamages | server/internal/router/node.go:69-117 | Splitting at a common prefix hides the old text, or the new one if the old text is the prefix. |
| RouteLimits.LandsBehindWildcard | server/internal/router/router.go:115-120 | A static segment that sorts after `*` lands behind the wildcard, where the static pass has stopped. |
| RouteLimits.WildcardComesFirst | server/internal/router/router.go:115-120 | A wildcard put before static children hides them from the static pass. |
| RouteLimits.BrokenLimitsLoseARoute | server/internal/router/node.go:69-117 | A registration that breaks the limits makes some request miss its best route. |
| RouteLimits.LimitsAreExact | server/internal/router/router.go:105-152 | The trie answers like the flat table after each registration if and only if no two patterns break the limits. |
| RouteLimits.StarParamTakesMany | server/internal/router/node.go:122-129 | A parameter named `*` is a wildcard at the same time: its one-segment route answers every longer request. |
| ServerRoutes.ServerKeepsTheLimits | server/internal/api/server.go:20-30 | The server's own routes keep the limits and name their parameters apart. |
| Router.Node.InsertChildNode | server/internal/router/node.go:24-44 | Scans for the place, appends a slot, shifts the later children up by one from the end, and puts the child in. |
| Router.Node.Insert | server/internal/router/node.go:47-133 | The linked nodes after the call are the tree `Trie.Insert` gives, prefix split included. |
| Router.Node.Split | server/internal/router/node.go:77-116 | The new node takes the child's slot, the child keeps the suffix, the rest of the segment becomes a second child or nothing. |
| Router.Router.Handle | server/internal/router/router.go:50-68 | Refuses a path without a leading slash; otherwise the table grows by the truncated route and the nodes are what it builds. |
| Router.Router.FindHandler | server/internal/router/router.go:105-152 | The recursion over linked nodes and one shared map has the result and the map of `Trie.Find`, for every tree and map. |
| Router.Router.Resolve | server/internal/router/router.go:71-77 | A request is answered by the table's lookup with a fresh map. |
| Throttle.SpanAdmission | proxy/internal/throttling/throttling.go:173-199 | Under every interleaving a span admits at most MaxRequests and at most what it counts; spans outside the run admit nothing. |
| Throttle.ThresholdIsShare | proxy/internal/throttling/throttling.go:181-186 | A count is within the threshold iff as many on each of the nodes, one at least, are within MaxRequests. |
| Throttle.ShareAdmission | proxy/internal/throttling/throttling.go:173-199 | If every call sees at least so many nodes, that many nodes admitting as a span of this one does admit no more than MaxRequests together. |
| Throttle.NoWeightLost | proxy/internal/throttling/throttling.go:86-90 | All weight ever counted is in the live count or in exactly one swapped-out batch. |
| Throttle.CountersAddUp | proxy/internal/throttling/throttling.go:107-117 | An interval counter is what other nodes added plus this node's batches that reached it. |
| IntervalBound.HotSpanBlocks | proxy/internal/throttling/throttling.go:86-124 | A span that counted something and took the total over the limit blocks the route up to the cooldown's last whole span: from the next span on in a calm run, from the one after it if calls may come between swap and block. |
| IntervalBound.TailBound | proxy/internal/throttling/throttling.go:85-205 | Once the total is over the limit: in a calm run one span and then c without; with whole calls and a cooldown of more than a span rows of at most `LongRow` spans, each with its c spans without. |
| IntervalBound.RowFits | proxy/internal/throttling/throttling.go:86-132 | With calls between swap and block, a row of m + 2 spans that all admit needs m times what the cooldown exceeds a span by to fit into a span: each admits later than the one before. |
| IntervalBound.RowsAsQuotient | proxy/internal/throttling/throttling.go:85-205 | The number of spans that rows and rests leave, in closed form. |
| IntervalBound.IntervalAdmission | proxy/internal/throttling/throttling.go:85-133 | In the n spans flushed into one counter a node admits at most MaxRequests * (1 + as many of the other n - 1 as rows and rests leave), although every span starts afresh and denied weight counts. |
| IntervalBound.CalmBound | proxy/internal/throttling/throttling.go:85-133 | For a calm run that is MaxRequests * (2 + (n - 2) / (c + 1)). |
| IntervalBound.SpansOfInterval | proxy/internal/throttling/throttling.go:92-93 | Exactly which spans are flushed into interval n: one span earlier than the interval itself. |
| IntervalBound.WholeIntervalAdmission | proxy/internal/throttling/throttling.go:85-205 | The bound for a whole interval of S spans. |
| IntervalRuns.BoundIsReached | proxy/internal/throttling/throttling.go:85-205 | For every configuration with evenly dividing spans, and every cooldown, some run admits exactly the bound of its kind. |
| IntervalRuns.LeastBound | proxy/internal/throttling/throttling.go:85-205 | A node keeps within b in every interval of every run of a kind if and only if b is at least the bound. |
| IntervalRuns.LimitIsKeptIff | proxy/internal/throttling/throttling.go:15-20 | MaxRequests per interval is kept, under any of the assumptions, if and only if it is zero or the interval is one span. |
| IntervalRuns.CalmBoundWholeIff | proxy/internal/throttling/throttling.go:86-132 | The calm bound survives calls between swap and block if and only if the limit is zero, there are two spans, the cooldown is less than a span, or it has c >= 2 whole spans and the interval c + 3. |
| IntervalRuns.CalmBoundFreeIff | proxy/internal/throttling/throttling.go:173-199 | It survives calls under way across a swap if and only if the limit is zero, there are two spans, or the cooldown is less than a span. |
| IntervalRuns.WindowCallsEscape | proxy/internal/throttling/throttling.go:86-132 | A concrete configuration whose calm bound a call between swap and block breaks. |
| IntervalRuns.DefaultsAdmitThreefold | proxy/internal/throttling/throttling.go:22-29 | The defaults keep within 300 requests an interval and no less, calls between swap and block included, and within 600 with calls across swaps. |
| Chain.ViewIsARun | proxy/internal/throttling/hierarchical.go:36-48 | However requests and ticks interleave, every key of every level makes a run of the protocol. |
| Chain.PassedIsAdmitted | proxy/internal/throttling/hierarchical.go:36-48 | Conservation under every interleaving: what a level admits in a span under a key is exactly the weight of the requests that got past it then. |
| Chain.AcceptedEverywhere | proxy/internal/throttling/hierarchical.go:36-48 | An accepted request was admitted once by every level, in one of its spans and under its key there, and never denied. |
| Chain.AcceptedAllOrNone | proxy/internal/throttling/hierarchical.go:36-48 | The accepted weight is that of the requests past all levels. |
| Chain.AcceptedWithinEveryLimit | proxy/internal/throttling/hierarchical.go:36-48 | For every interleaving, level, key and span: the weight of finally accepted requests that the level counted there is within its own limit. |
| Chain.AcceptedWithinInterval | proxy/internal/throttling/hierarchical.go:36-48 | And over a whole interval it is within the single throttler's interval bound, for each level and key and each assumption about the calls there. |
| Completions.CompletionsKeptIff | proxy/internal/throttling/hierarchical.go:36-48 | Counted when the chain completes instead, what completes in one span of a level under one key stays within that level's limit, in every run, if and only if the level is the last, charges nothing, or some level charges more than its limit. |
| Completions.CompletionsExceedTheLimit | proxy/internal/throttling/hierarchical.go:36-48 | For two levels of the default limits it does so for the second and not for the first. |
| Throttler.Throttler.Increment | proxy/internal/throttling/throttling.go:173-199 | Blocked routes count nothing; otherwise the weight is counted first, and if as much on every node is over MaxRequests the route is blocked and the call denied. |
| Throttler.Throttler.IncrementAndCheck | proxy/internal/throttling/throttling.go:173-199 | An uninterrupted call is let through iff the route is not blocked and the count times the nodes stays within MaxRequests; it is the protocol's three steps on its own route and invisible to the others. |
| Throttler.Throttler.SwapCounts | proxy/internal/throttling/throttling.go:86-90 | The counts are handed over and start again from nothing: the protocol's swap for every route. |
| Throttler.Throttler.CleanupBlockedRoutes | proxy/internal/throttling/throttling.go:207-216 | Exactly the expired blocks go. |
| Throttler.Throttler.FlushCounts | proxy/internal/throttling/throttling.go:107-117 | Adds every route's count to its counter of this interval and touches no other counter, in whatever order the map is read, or nothing if the store fails: the protocol's flush for every route. |
| Throttler.Throttler.BlockRoutesOver | proxy/internal/throttling/throttling.go:119-132 | Blocks for the cooldown exactly the routes that counted something and whose total is over MaxRequests, or without the store whose own count is over MaxRequests / Spans. |
| Throttler.Throttler.BlockRoute | proxy/internal/throttling/throttling.go:201-205 | One route is blocked for the cooldown from now. |
| Throttler.Throttler.ProcessSpan | proxy/internal/throttling/throttling.go:85-133 | With nothing in between, for every route at once, the protocol's four steps swap, clean, flush and block. |
| Hierarchy.HierarchicalThrottler.CheckRequest | proxy/internal/throttling/hierarchical.go:36-48 | With nothing in between: accepted iff every level has room for the weight, one if it is unset; each level before the one that denies has counted that much, that one has taken the protocol's steps, later ones are untouched. |
| Hierarchy.RequestsWithinLimit | proxy/internal/throttling/hierarchical.go:36-48 | However requests and ticks interleave, no more requests than its limit get past a level under one key between two of its swaps, whatever the weights. |
| Hierarchy.HierarchicalThrottler.PassLevels | proxy/internal/throttling/hierarchical.go:37-46 | The loop stops at the first level that denies. |
| RoundRobin.SelectFindsAlive | proxy/internal/balancer/balancer.go:174-185 | A selection is alive and is the place the 32-bit counter stands on. |
| RoundRobin.CounterWraps | proxy/internal/balancer/balancer.go:177-178 | The counter has 32 bits: after 4294967295 comes zero. |
| RoundRobin.NilMeansNobodyIff | proxy/internal/balancer/balancer.go:174-185 | Nil means that nobody is alive, for every pattern of live backends, if and only if the scan does not wrap inside, wraps at its start, or the number of backends divides 2^32. |
| RoundRobin.RoundRobinIsFair | proxy/internal/balancer/balancer.go:174-185 | Of k selections over a live backends each live one gets k / a rounded down or up, a dead one none: as long as the 32-bit counter rises at each selection, and across any number of wraps if the number of backends divides 2^32. |
| Weighted.PickIsStretch | proxy/internal/balancer/balancer.go:255-267 | A draw selects the live backend in whose stretch of the running sum it lies. |
| Weighted.SomebodyIsPicked | proxy/internal/balancer/balancer.go:258-269 | The fallback to round robin is unreachable, whatever the signs of the weights, if both loops see the same backends up. |
| Weighted.FallbackIff | proxy/internal/balancer/balancer.go:243-270 | With the flags read again in the second loop the fallback is taken if and only if the draw is beyond the second total, which takes a backend that has gone down in between. |
| Weighted.FallbackHappens | proxy/internal/balancer/balancer.go:243-270 | Two backends of weight one and one going down between the loops for which it is taken. |
| Weighted.SelectionIsProportional | proxy/internal/balancer/balancer.go:243-270 | Of all draws below the total a live backend gets exactly its weight, a dead one none. |
| Retries.FailureCostsOne | proxy/internal/balancer/balancer.go:80-87 | Uninterrupted, each failure of a live backend uses up exactly one unit of the budget, the sum over live backends of max(1, MaxFailCount - failCount). |
| Retries.BudgetZeroIffDown | proxy/internal/balancer/balancer.go:80-96 | The budget is used up iff every backend is down. |
| Retries.CallsWithinBudget | proxy/internal/balancer/balancer.go:80-96 | Any number of requests, every interleaving of their steps, resets and health checks: no request is called for more often than the budget was when it was chosen and what resets and health checks have added since. |
| Retries.ChainsAreShaped | proxy/internal/balancer/balancer.go:80-96 | In every run a chain stops at its first answer, and without one is not over before the scan has found nobody. |
| Retries.ChainsEnd | proxy/internal/balancer/balancer.go:80-96 | In every run a request takes no more steps of its own than that budget allows, a whole scan for each call. |
| Retries.NobodyLeftMeansDown | proxy/internal/balancer/balancer.go:272-288 | In every run a request ends in 503 only when every backend is down, unless one was found healthy during its scan, although backends may go down under it. |
| Retries.ConnectionsComeOutEven | proxy/internal/balancer/balancer.go:305-317 | In every run a backend has as many connections as requests that were sent to it first and are still open. |
| Retries.BackendsMove | proxy/internal/balancer/balancer.go:80-96 | Exactly which steps change a backend: a counted failure, the mark at the limit, a health check, and an answer below 500 for the request that was sent to it first. |
| Retries.AloneUsesTheBudget | proxy/internal/balancer/balancer.go:80-96 | A request that nobody disturbs from its choice on stops at the first answer, or is called for exactly as often as the budget was then and ends in 503. |
| Retries.AlwaysExactIff | proxy/internal/balancer/balancer.go:80-96 | With failures of others in between that holds for every request in every run without additions to the budget if and only if the budget is at most one at the start; otherwise a run cuts a chain short after one call. |
| Retries.ScanInOneGo | proxy/internal/balancer/balancer.go:272-288 | Uninterrupted, the lock and the looks of a scan give the next live backend in cyclic order, or nobody after a full turn. |
| Retries.FailInOneGo | proxy/internal/balancer/balancer.go:80-87 | Uninterrupted, counting and marking are the failure step of the methods below. |
| Balancer.Backend.SetAlive | proxy/internal/balancer/backend.go:39-46 | Sets the flag; reviving clears the fail count, going down keeps it. |
| Balancer.Backend.IncreaseFailCount | proxy/internal/balancer/backend.go:55-61 | Adds one and gives the new count. |
| Balancer.Backend.ResetFailCount | proxy/internal/balancer/backend.go:63-67 | Clears the count and nothing else. |
| Balancer.LoadBalancer.RoundRobinSelect | proxy/internal/balancer/balancer.go:174-185 | The loop over the wrapping counter has the choice and the counter of the reference scan. |
| Balancer.LoadBalancer.WeightedSelect | proxy/internal/balancer/balancer.go:243-270 | With nothing in between: nil iff the live total is zero; otherwise the backend the draw selects, and the fallback is never taken. |
| Balancer.LoadBalancer.NextBackend | proxy/internal/balancer/balancer.go:272-288 | The cyclic scan ends; it gives the first live backend after Current, and nil iff nobody is alive, after exactly one turn. |
| Balancer.LoadBalancer.MarkFailure | proxy/internal/balancer/balancer.go:80-87 | With nothing in between, the failure is counted and the backend marked down at the limit; the others are unchanged and the budget drops by one. |
| Balancer.LoadBalancer.Forward | proxy/internal/balancer/balancer.go:80-96 | With no other request in between, the retry chain stops at the first answer, and ends in 503 exactly after the whole budget of calls went unanswered. |
| Balancer.LoadBalancer.Retry | proxy/internal/balancer/balancer.go:80-96 | The error handler's part of that chain, uninterrupted. |
| Balancer.LoadBalancer.FailOver | proxy/internal/balancer/balancer.go:80-96 | With nothing in between, the failure is counted and the next backend is the first live one in cyclic order, or nobody. |
| Balancer.LoadBalancer.Serve | proxy/internal/balancer/balancer.go:298-332 | With no other request in between, a request's chain from its chosen backend, as a run of the protocol: unanswered only with every backend down; connection counts come out even; fail counts grow by one for each failure, and the first backend's is cleared iff the status is below 500. |
| Balancer.LoadBalancer.CheckBackend | proxy/internal/balancer/balancer.go:368-376 | A health check sets one backend, clearing its count if it is healthy: the protocol's step. |

## Left out

- IntervalBound.IntervalAdmission: assumes a store that is reachable at every flush, and that a span is swapped out as it ends and dealt with before the next one ends; the interval number is the one at the swap. Without the store the code compares with MaxRequests / Spans instead.
- RouteLimits.LimitsAreExact: assumes a handler of its own for every route, so that a wrong answer can be told from a right one, and no parameter named `*`.
- RoundRobin.RoundRobinIsFair: nothing is stated of rows of selections in which a scan wraps and the number of backends does not divide 2^32; the scan may jump over a place then, and `NilMeansNobodyIff` says exactly when.
- Balancer.LoadBalancer.Forward: one request without others; module `Retries` has any number of them, cut at the locks.
- Balancer.LoadBalancer.Retry: the same.
- Balancer.LoadBalancer.MarkFailure: the same; in `Retries` counting and marking are two steps.
- Balancer.LoadBalancer.Serve: the same; the object has been used by requests and health checks in this way alone.
- Retries.CallsWithinBudget: a choice is the moment at which the strategy sees its backend up; replacing the backends is not modelled; fail counts are unbounded.
- Balancer.LoadBalancer.WeightedSelect: the flags do not change between the two loops (`Weighted.FallbackIff` says what happens if they do); a negative live total, for which the random draw panics, is excluded.
- Weighted.SomebodyIsPicked: the same reading of the flags in both loops.
- Wordle.Game.Hints: requires what the code indexes: tiles for all letters of the attempts, recorded places inside the words they are looked up in, and lower-case letters in the words that are scored. The API's unknown-answer mode does not set the length filter itself.
- Wordle.Game.Attempt: the returned pointer into the list of attempts is a copy here; on a game with a limit of zero the code would index an empty list, which is excluded, as are more reported tiles than letters.
- Wordle.Game.Init: a negative limit, for which the code panics, is excluded.
- Throttler.Throttler.ProcessSpan: one reading of the clock. The new node estimate is an argument of any value, and NaN and rounding are not modelled.
- Throttler.Throttler.IncrementAndCheck: weights and times are not negative.
- Chain.AcceptedWithinEveryLimit: the clocks of the levels are independent of each other, which allows more runs than there are; a flush reaches the store for all keys of a level or for none.
- Hierarchy.HierarchicalThrottler.CheckRequest: the levels have throttlers of their own.
- Router.Node.InsertChildNode: the children are a list field that is shifted element by element; the sharing of a slice's backing array is not modelled.
- Ranking.SortInPlace: stands for the library's stable sort; `RankingIsUnique` shows that any correct sort gives the same list.
- Hints.SumDistinctLetters: one loop for the three copies of it in the source, which differ in what a letter is worth.
- Calls to the shared counters expire and pipeline in the original; here a counter lives forever and a flush succeeds or fails as a whole.
- Node estimation itself (throttling.go:137-169): only the greater of one and its value is used.
- Least-connections, IP-hash and random selection, metrics, the health-check client and configuration reload of the balancer.
- HTTP serving, middleware, route groups, request and response formats, session storage and the loading of word lists.
- Word filters are arbitrary pure predicates; the filter by length is one of them.
