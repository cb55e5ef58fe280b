# TypeRo typing session, modelled in Dafny

TypeRo is a typing-speed test. It shows a list of words and the player
types them one at a time. Space commits the current word, and Backspace on
an empty buffer goes back to the previous word. A countdown of 15, 30 or 60
seconds then ends the session with words per minute (wpm), accuracy and a
score. The words come from a word service that fetches a list once, or uses
a built-in list when the fetch fails. It shuffles the list with
Fisher-Yates and hands out the first fifty words.

This project models both parts and proves what they promise:
- the session state machine of `src/App.jsx`;
- the word supplier of `src/services/wordService.js`.

The files are:

- `common.dfy`: `Option`, `Min` and `Max`.
- `typing.dfy` (module `Typing`):
  - the word and letter states;
  - the per-letter verdict loop of `updateCurrentWordState`;
  - JavaScript's `String.prototype.trim`, with the full set of characters it removes.
- `stats.dfy` (module `Stats`):
  - `Math.round` on a ratio, in exact integers;
  - the typed and correct word counts;
  - `calculateStats` with the current time passed in;
  - the score formula of `calculateScore`;
  - the countdown `max(0, seconds - floor(elapsed / 1000))`.
- `layout.dfy` (module `Layout`): `getVisibleWords`.
- `session.dfy` (module `Session`): the component's state fields as one
  value, `SessionState`. Each event handler is a transition function on it:
  - `Fresh` is `initializeTest`;
  - `AfterInput` is `handleInput`;
  - `AfterKeyDown` is `handleKeyDown`, built from `ClockFor` (start the clock) and `KeyAction` (what the key does);
  - `AfterTick` is one run of the interval body.

  The class `TypingSession` holds the same fields and updates them in place.
  Each of its methods is proved to perform its transition
  (`Snapshot() == AfterKeyDown(old(Snapshot()), ...)`). The rules the
  handlers follow are proved as lemmas about the transitions. So is the
  session invariant `Inv`: exactly the words before the cursor are committed.
- `word_service.dfy` (module `WordService`): the word supplier.
  - `ShuffleArray` is the Fisher-Yates swap loop over an array copy. It is proved equal to the function `Shuffled` and to be a permutation.
  - The class `WordCache` holds the module-level `wordList`, with `fetchWordList` and `getWords`.

Inputs from outside the program are parameters:
- the current time (`Date.now()`) is `now`, in integer milliseconds;
- the random draws of the shuffle (`Math.random()`) are `choices`, where `choices[i]` is in `[0, i]`;
- the result of the word-list request is a `FetchOutcome`.

`startTime` is `Option<int>`. "The clock has started" is JavaScript
truthiness (`Started`): a start time of `0` counts as not started, as
`!startTime` does in the source.

Where the code and its description differ, the model follows the code.
After Backspace moves back, the entry of the word that was current keeps
whatever state input gave it, possibly `WordCurrent`. So more than one word
can be in state Current. Only the committed-prefix invariant is claimed.

## Model

| member | source | states |
|---|---|---|
| Typing.ComputeVerdicts | src/App.jsx:128-138 | The loop returns one verdict per position up to `max(|input|, |word|)`. A position is Pending past the input, Incorrect past the word, and otherwise Correct exactly when the letters are equal. The result is the specification `Verdicts`. |
| Typing.AllCorrectIffMatch | src/App.jsx:128-138 | Every verdict is Correct if and only if the input equals the word. |
| Typing.NoIncorrectIffPrefix | src/App.jsx:128-138 | No verdict is Incorrect if and only if the input is a prefix of the word. |
| Typing.AppendKeepsEarlierVerdicts | src/App.jsx:128-138 | Typing one more character leaves the verdicts of all earlier positions unchanged. |
| Typing.TrimStart | src/App.jsx:94 | `trim` drops only leading whitespace, and what remains does not start with whitespace. |
| Typing.TrimEnd | src/App.jsx:94 | `trim` drops only trailing whitespace, and what remains does not end with whitespace. |
| Typing.TrimNonEmptyIffNotBlank | src/App.jsx:94-95 | The trimmed buffer is non-empty exactly when the buffer holds a character that is not whitespace. |
| Stats.RoundRatio | src/App.jsx:172-173 | `Math.round(n / d)` for `d > 0` is the integer `r` with `2dr <= 2n + d < 2d(r + 1)`. |
| Stats.RoundRatioWithin | src/App.jsx:172-173 | Rounding a ratio in `[0, k]` gives a result in `[0, k]`. |
| Stats.TypedCount | src/App.jsx:164-166 | The number of committed words is at most the number of words. |
| Stats.CorrectCount | src/App.jsx:168-170 | The number of correct words is at most the number of committed words. |
| Stats.TypedCountIsBoundary | src/App.jsx:164-166 | When exactly the words before position `k` are committed, the typed count is `k`. |
| Stats.CalculateStats | src/App.jsx:160-176 | The result is zero before the clock starts, while the full duration is left, or with nothing typed. Otherwise wpm is `round(typed * 60000 / elapsed ms)` and accuracy is `round(100 * correct / typed)`. Always `0 <= wpm` and `0 <= accuracy <= 100`. |
| Stats.AccuracyExtremes | src/App.jsx:173 | With words typed, all correct gives accuracy 100 and none correct gives 0. |
| Stats.ScoreBounds | src/App.jsx:178-186 | For accuracy in `[0, 100]`, `5 * wpm <= score <= 15 * wpm`: the multiplier is 0.5x to 1.5x of ten points per wpm. |
| Stats.ScoreFloor | src/App.jsx:183 | At accuracy 0 or below, the multiplier is clamped at 0.5 and the score is `5 * wpm`. |
| Stats.ScoreMonotoneInAccuracy | src/App.jsx:183-186 | Higher accuracy never lowers the score. |
| Stats.ScoreExamples | src/App.jsx:178-186 | (60, 100) scores 900, (40, 50) scores 400, and (20, 0) scores 100. |
| Stats.RemainingWithinDuration | src/App.jsx:49-50 | With the clock running forward, the remaining time is within `[0, seconds]`. |
| Stats.RemainingNonIncreasing | src/App.jsx:49-50 | The remaining time never increases as elapsed time grows. |
| Stats.RemainingZeroIff | src/App.jsx:50-57 | The countdown reaches zero exactly when `seconds * 1000` ms have elapsed. |
| Stats.ArmedIntervalStatsAreZero | src/App.jsx:45-66 | As written, the statistics the interval computes are always (0, 0), and so the score is 0. |
| Layout.GetVisibleWords | src/App.jsx:259-269 | The window is the slice of the list from the first visible line. Its length is `min(36, |words| - start)`, or 0 when the start is past the end of the list. |
| Layout.CurrentWordVisible | src/App.jsx:262-268 | The current word is always in the window, in the same column. It is on the window's first line while on the text's first line, and on the second line after that. |
| Session.FreshIsValid | src/App.jsx:68-82 | The state `initializeTest` sets up satisfies the invariant, with no word committed. |
| Session.TypedWordsEqualIndex | src/App.jsx:164-166 | Under the invariant, the number of committed words equals `currentWordIndex`. |
| Session.InputPreservesInv | src/App.jsx:110-123 | `handleInput` keeps the session invariant. |
| Session.KeyDownPreservesInv | src/App.jsx:84-108 | `handleKeyDown` keeps the session invariant and the word list for every key. |
| Session.KeyActionPreservesInv | src/App.jsx:92-107 | The Space and Backspace branches keep the invariant. |
| Session.CommitPreservesInv | src/App.jsx:147-158 | `checkWord` keeps the invariant: the committed words are still exactly those before the cursor. |
| Session.ReopenPreservesInv | src/App.jsx:98-106 | Going back to the previous word keeps the invariant. |
| Session.TickPreservesInv | src/App.jsx:48-62 | The countdown tick keeps the invariant. |
| Session.InputRules | src/App.jsx:110-145 | `handleInput` does nothing when finished and sets the start time only if unset. A value ending in a space leaves the buffer and the word states unchanged. Any other value becomes the buffer, and only the current word's entry changes, to Current with the value's verdicts. |
| Session.SpaceCommits | src/App.jsx:92-97 | Space on a buffer with a non-whitespace character commits it (`checkWord`, lines 147-158). The word is Correct exactly when the untrimmed buffer equals it, and its verdicts are kept. The cursor advances by one, the buffer is cleared, and no other word changes. |
| Session.TypedWordCommitsCorrect | src/App.jsx:110-158 | Typing the current word exactly and pressing Space marks it Correct with every letter Correct, and moves to the next word. |
| Session.SpaceOnBlankBufferStays | src/App.jsx:92-97 | Space on an empty or all-whitespace buffer moves neither the cursor nor the buffer, and changes no word. |
| Session.SpaceIsIdempotent | src/App.jsx:92-97 | A second Space right after the first changes nothing, so repeated separators never commit twice. |
| Session.BackspaceRules | src/App.jsx:98-106 | Backspace acts only on an empty buffer past the first word. It then resets only the previous word to Pending with no verdicts, moves the cursor back, and puts that word's text in the buffer. Otherwise the words, the cursor and the buffer stay as they were. |
| Session.KeyDownRules | src/App.jsx:84-108 | Every key keeps the invariant and the word list, and starts the clock unless it is Tab. The cursor moves by at most one, and back only for Backspace on an empty buffer. |
| Session.TickRules | src/App.jsx:48-62 | A tick does nothing before the clock starts or after the end. Otherwise the remaining time is `max(0, seconds - floor(elapsed / 1000))` in `[0, seconds]`. The wpm and accuracy it sets are `CalculateStats` of the current word states, so they carry its rounding contract. The session finishes exactly when the remaining time reaches 0, with `5 * wpm <= score <= 15 * wpm`, and all-correct words give accuracy 100. The start time, words, cursor and buffer are untouched. |
| Session.FinishedIsTerminal | src/App.jsx:84-111 | Once finished, input (line 111), keys (line 85) and the tick (line 47) change nothing. |
| Session.AsWrittenTickScoresZero | src/App.jsx:45-66 | The interval as written reports 0 wpm and 0% accuracy on every tick, and ends every session with score 0. |
| Session.TimeUpWithTwoCorrectWords | src/App.jsx:48-62 | A 15-second session ends with two correct words: accuracy 100, 8 wpm, score 120. A later tick changes nothing, and the interval as written gives score 0. |
| Session.TypingSession.constructor | src/App.jsx:41-43 | Mounting runs `initializeTest`: the fresh state, valid. |
| Session.TypingSession.InitializeTest | src/App.jsx:68-82 | The fields become the fresh state for the given words: every word Pending, empty buffer, clock unset with the full duration, zero statistics, results hidden. |
| Session.TypingSession.HandleReset | src/App.jsx:195-208 | Reset re-initialises the session to the fresh state. |
| Session.TypingSession.TypedWordCount | src/App.jsx:164-166 | The count of committed words is `currentWordIndex`. |
| Session.TypingSession.StartClock | src/App.jsx:87-90 | Records the start time and arms the full duration, changing nothing else. |
| Session.TypingSession.UpdateCurrentWordState | src/App.jsx:125-145 | Only the current word's entry changes, to Current with the verdicts of the input. |
| Session.TypingSession.CheckWord | src/App.jsx:147-158 | Performs the commit transition `Commit`. |
| Session.TypingSession.HandleInput | src/App.jsx:110-123 | Performs `AfterInput` and keeps `Valid()`. |
| Session.TypingSession.HandleKeyDown | src/App.jsx:84-108 | Performs `AfterKeyDown` and keeps `Valid()`. |
| Session.TypingSession.ApplyKey | src/App.jsx:92-107 | Performs the key step `KeyAction` on the fields. |
| Session.TypingSession.CalculateScore | src/App.jsx:178-193 | Sets the final wpm and accuracy, the score `Score(wpm, accuracy)`, and shows the results. |
| Session.TypingSession.Tick | src/App.jsx:48-62 | Performs `AfterTick`, reading the current fields, and keeps `Valid()`. |
| WordService.Swap | src/services/wordService.js:10 | Exchanges exactly positions `i` and `j` and leaves every other position unchanged. |
| WordService.ShuffleDown | src/services/wordService.js:8-11 | The swaps from position `i` down to 1 keep the length. |
| WordService.ShuffleDownIsPermutation | src/services/wordService.js:8-11 | The swaps keep the multiset of elements. |
| WordService.ShuffledIsPermutation | src/services/wordService.js:6-13 | A shuffle has the same length and the same multiset as its argument. |
| WordService.ShuffleArray | src/services/wordService.js:6-13 | The swap loop over an array copy yields `Shuffled(s, choices)`, a permutation of `s`. The argument, a value, is untouched. |
| WordService.SessionWords | src/services/wordService.js:45-46 | `getWords` returns `min(50, |list|)` words, no more copies of any word than the list has, and each one from the list. |
| WordService.ResolveWordList | src/services/wordService.js:15-43 | A non-empty cached list is reused. An empty one is replaced by the fetched list, or by the 80 built-in words when the fetch fails. |
| WordService.FailedFetchGivesFullSession | src/services/wordService.js:23-46 | After a failed fetch, a session still gets exactly 50 words. |
| WordService.WordCache.constructor | src/services/wordService.js:4 | The module starts with an empty word list. |
| WordService.WordCache.FetchWordList | src/services/wordService.js:15-37 | Stores the fetched list, or the built-in list on failure. |
| WordService.WordCache.GetWords | src/services/wordService.js:39-47 | Fetches only while the list is empty (`ResolveWordList`), and returns the first 50 words of the shuffled list (`SessionWords`). |

## Left out

- Rendering is not modelled. This covers the `Word` component, Chakra components, colours and the cursor offset in `em` (src/App.jsx:210-257, 271-427). It is presentation only.
- The time-mode buttons are not modelled. A session's `timeMode` is fixed when it is created, and switching modes is not a state transition of the model.
- React's scheduling is not modelled: batched state updates, effect re-runs and the interval's 200 ms period. `Tick` is one run of the interval body, reading the current fields. The closure behaviour of the real interval is the finding below.
- `Date.now()` and `Math.random()` are parameters (`now`, `choices`). `fetch`, `response.json()`, `console.warn` and `async`/`await` are reduced to a given `FetchOutcome`.
- Floating point is not modelled. Elapsed minutes and the accuracy multiplier are exact integer formulas. Rounding is `Math.round` on the exact ratio.
- Stats.CalculateStats: requires time to have elapsed when words are typed (`StatsDefined`). In the source, a zero elapsed time would give `Infinity` wpm, and `|| 0` only catches `NaN`.
- Session.TypingSession.HandleInput: requires `isFinished`, a value ending in a space, or a word under the cursor. Past the last word the source crashes in `updateCurrentWordState` (`currentWord` is undefined). A crash is not modelled as a state.
- Session.TypingSession.CheckWord: requires a word under the cursor, for the same reason. `handleKeyDown` never calls it otherwise, because the invariant keeps the buffer empty past the last word.
- Session.TypingSession.Tick: requires the clock not to run backwards (`now >= startTime`).
- Session.TickRules: `AfterTick` passes the new remaining time to `CalculateStats`. In the source, `setTimeLeft` at src/App.jsx:51 is deferred, so `calculateStats` at lines 53 and 60 still reads the pre-tick `timeLeft` in its check at line 161. On the tick where the countdown first drops below the full duration, that check gives (0, 0), where the model computes the live statistics.
- Strings are sequences of Unicode code points. JavaScript's `.length`, indexing and `value[value.length - 1]` work on UTF-16 code units. So a character outside the Basic Multilingual Plane, such as an emoji, is one position in the model and two in the source. This affects the verdict count (src/App.jsx:130-137) and the last-character test (src/App.jsx:117-119).
- Session.TypingSession.HandleReset: the transient values `handleReset` sets before `initializeTest` completes are not modelled (`startTime = 0`, `wordStates = {}`, `words = []`). The reset is modelled as the re-initialisation they are overwritten by.
- `CACHE_KEY` and `CACHE_DURATION` are not modelled: they are never used. A fetched `data.words` that is not an array is not modelled either: the outcome is a list or a failure.
- tailwind.config.js is not part of this model: it is styling configuration.

## Findings

| source | as written | input that shows it | evidently intended | confidence | as-written member | corrected member |
|---|---|---|---|---|---|---|
| src/App.jsx:45-66 | The interval is armed by the render that started the clock, and effect dependencies `[startTime, isFinished, timeMode]` do not re-arm it. Its `calculateStats` reads that render's `timeLeft`, which equals `timeMode.seconds`, and its `wordStates`. So it returns `{wpm: 0, accuracy: 0}` on every tick and for the final score. | A 15 s session started at 1000 ms, with "the" and "cat" typed correctly, and time up at 16000 ms: 0 wpm, 0% accuracy, score 0. | The live and final statistics of what was typed: 8 wpm, 100% accuracy, score 120. | high, not executed | Session.AsWrittenTickScoresZero | Session.TickRules |
