/**
 * The state of the `App` component and its event handlers. The component's
 * state fields are gathered in `SessionState`; each handler is a transition
 * function on it (`AfterInput`, `AfterKeyDown`, `AfterTick`, ...), and the
 * class `TypingSession` holds the same fields and updates them in place,
 * each method proved to perform its transition. The lemmas state what the
 * handlers promise.
 */
module Session {
  import opened Common
  import opened Typing
  import opened Stats

  /** The selectable session lengths. */
  datatype TimeMode = Time15 | Time30 | Time60
  {
    function Seconds(): nat
    {
      match this
      case Time15 => 15
      case Time30 => 30
      case Time60 => 60
    }
  }

  /** The keys `handleKeyDown` distinguishes (`e.key`). */
  datatype Key = Space | Backspace | Tab | OtherKey

  /** The last character of the new input value is a space. */
  predicate EndsInSpace(value: string)
  {
    |value| > 0 && value[|value| - 1] == ' '
  }

  /** The component's state fields (the time mode is kept apart, as `seconds`). */
  datatype SessionState = SessionState(
    words: seq<string>,
    currentWordIndex: nat,
    currentInput: string,
    startTime: Option<int>,
    timeLeft: int,
    isFinished: bool,
    wordStates: seq<WordState>,
    wpm: int,
    accuracy: int,
    score: int,
    showResults: bool)

  /** Exactly the words before `index` are committed (Correct or Incorrect). */
  predicate CommittedPrefix(wordStates: seq<WordState>, index: nat)
  {
    forall i :: 0 <= i < |wordStates| ==> (wordStates[i].status.IsTyped() <==> i < index)
  }

  /**
   * The shape every handler relies on: one state per word, the cursor on a
   * word or just past the last one, and then an empty buffer.
   */
  predicate WellFormed(st: SessionState)
  {
    |st.wordStates| == |st.words| &&
    st.currentWordIndex <= |st.words| &&
    (st.currentWordIndex == |st.words| ==> st.currentInput == "")
  }

  /**
   * The session invariant: well formed; exactly the words before the cursor
   * are committed; the clock is within the duration; results are shown
   * exactly when the session is finished, and only then is there a score.
   */
  predicate Inv(st: SessionState, seconds: nat)
  {
    WellFormed(st) &&
    CommittedPrefix(st.wordStates, st.currentWordIndex) &&
    0 <= st.timeLeft <= seconds &&
    (st.isFinished ==> st.timeLeft == 0 && Started(st.startTime)) &&
    st.showResults == st.isFinished &&
    0 <= st.wpm && 0 <= st.accuracy <= 100 &&
    (if st.isFinished then st.score == Score(st.wpm, st.accuracy) else st.score == 0)
  }

  /** The state `initializeTest` sets up: every word Pending, clock armed but not started. */
  function Fresh(words: seq<string>, seconds: nat): SessionState
  {
    SessionState(words, 0, "", None, seconds, false, seq(|words|, _ => Untouched), 0, 0, 0, false)
  }

  /** The first qualifying event: record the start time and arm the full duration. */
  function Begin(st: SessionState, now: int, seconds: nat): SessionState
  {
    st.(startTime := Some(now), timeLeft := seconds)
  }

  /** `updateCurrentWordState`: the current word becomes Current with the verdicts of `input`. */
  function Refresh(st: SessionState, input: string): SessionState
    requires st.currentWordIndex < |st.words| && |st.wordStates| == |st.words|
  {
    var w := st.currentWordIndex;
    st.(wordStates := st.wordStates[w := WordState(WordCurrent, Verdicts(input, st.words[w]))])
  }

  /**
   * `checkWord`: commit the current word, Correct exactly when the buffer
   * equals it, keeping its verdicts, and move to the next word.
   */
  function Commit(st: SessionState): SessionState
    requires st.currentWordIndex < |st.words| && |st.wordStates| == |st.words|
  {
    var w := st.currentWordIndex;
    var status := if st.currentInput == st.words[w] then WordCorrect else WordIncorrect;
    st.(wordStates := st.wordStates[w := WordState(status, st.wordStates[w].characters)],
        currentWordIndex := w + 1,
        currentInput := "")
  }

  /** The Backspace branch of `handleKeyDown`: reopen the previous word with its target text. */
  function Reopen(st: SessionState): SessionState
    requires 0 < st.currentWordIndex <= |st.words| && |st.wordStates| == |st.words|
  {
    var w := st.currentWordIndex - 1;
    st.(wordStates := st.wordStates[w := Untouched], currentWordIndex := w, currentInput := st.words[w])
  }

  /** `handleInput` receiving the new value of the input field at time `now`. */
  function AfterInput(st: SessionState, value: string, now: int, seconds: nat): SessionState
    requires |st.wordStates| == |st.words|
    requires st.isFinished || EndsInSpace(value) || st.currentWordIndex < |st.words|
  {
    if st.isFinished then st
    else
      var started := if Started(st.startTime) then st else Begin(st, now, seconds);
      if EndsInSpace(value) then started
      else Refresh(started.(currentInput := value), value)
  }

  /** The clock step of `handleKeyDown`: any key but Tab starts a clock that has not started. */
  function ClockFor(st: SessionState, key: Key, now: int, seconds: nat): SessionState
  {
    if !Started(st.startTime) && key != Tab then Begin(st, now, seconds) else st
  }

  /**
   * The key step of `handleKeyDown`: Space commits a buffer that is not
   * empty once trimmed; Backspace on an empty buffer reopens the previous
   * word; anything else does nothing.
   */
  function KeyAction(st: SessionState, key: Key): SessionState
    requires WellFormed(st)
  {
    if key == Space then
      if |Trim(st.currentInput)| > 0 then
        TrimNonEmptyIffNotBlank(st.currentInput);
        Commit(st)
      else st
    else if key == Backspace && st.currentInput == "" && st.currentWordIndex > 0 then Reopen(st)
    else st
  }

  /** `handleKeyDown` receiving `key` at time `now`. */
  function AfterKeyDown(st: SessionState, key: Key, now: int, seconds: nat): SessionState
    requires WellFormed(st)
  {
    if st.isFinished then st else KeyAction(ClockFor(st, key, now, seconds), key)
  }

  /**
   * One run of the countdown interval at time `now`, reading the current
   * state: only while the clock is started and the session not finished, it
   * sets the remaining time and the live statistics, and when no time is
   * left it finishes the session with the final statistics and score.
   */
  function AfterTick(st: SessionState, now: int, seconds: nat): SessionState
    requires Started(st.startTime) ==> now >= st.startTime.value
  {
    if !Started(st.startTime) || st.isFinished then st
    else
      var left := RemainingSeconds(seconds, now - st.startTime.value);
      var live := CalculateStats(st.startTime, left, seconds, st.wordStates, now);
      if left == 0 then
        st.(timeLeft := 0, isFinished := true, wpm := live.wpm, accuracy := live.accuracy,
            score := Score(live.wpm, live.accuracy), showResults := true)
      else st.(timeLeft := left, wpm := live.wpm, accuracy := live.accuracy)
  }

  /**
   * The countdown interval as written: it is armed by the render that
   * started the clock, and the `calculateStats` it calls reads that render's
   * `timeLeft` (still the full duration) and word states, so it computes
   * `ArmedIntervalStats` instead of the current statistics.
   */
  function AfterTickAsWritten(st: SessionState, now: int, seconds: nat): SessionState
    requires Started(st.startTime) ==> now >= st.startTime.value
  {
    if !Started(st.startTime) || st.isFinished then st
    else
      var left := RemainingSeconds(seconds, now - st.startTime.value);
      var live := ArmedIntervalStats(st.startTime, seconds, st.wordStates, now);
      if left == 0 then
        st.(timeLeft := 0, isFinished := true, wpm := live.wpm, accuracy := live.accuracy,
            score := Score(live.wpm, live.accuracy), showResults := true)
      else st.(timeLeft := left, wpm := live.wpm, accuracy := live.accuracy)
  }

  /**
   * As written, every tick reports 0 words per minute and 0% accuracy, and
   * the session always ends with score 0, whatever was typed.
   */
  lemma AsWrittenTickScoresZero(st: SessionState, now: int, seconds: nat)
    requires Inv(st, seconds)
    requires Started(st.startTime) ==> now >= st.startTime.value
    requires Started(st.startTime) && !st.isFinished
    ensures AfterTickAsWritten(st, now, seconds).wpm == 0
    ensures AfterTickAsWritten(st, now, seconds).accuracy == 0
    ensures AfterTickAsWritten(st, now, seconds).isFinished ==> AfterTickAsWritten(st, now, seconds).score == 0
  {
    ArmedIntervalStatsAreZero(st.startTime, seconds, st.wordStates, now);
  }

  /** A fresh session satisfies the invariant with nothing typed. */
  lemma FreshIsValid(words: seq<string>, seconds: nat)
    ensures Inv(Fresh(words, seconds), seconds)
    ensures TypedCount(Fresh(words, seconds).wordStates) == 0
  {
    TypedWordsEqualIndex(Fresh(words, seconds), seconds);
  }

  /** Under the invariant the number of typed words is the cursor position. */
  lemma TypedWordsEqualIndex(st: SessionState, seconds: nat)
    requires Inv(st, seconds)
    ensures TypedCount(st.wordStates) == st.currentWordIndex
  {
    TypedCountIsBoundary(st.wordStates, st.currentWordIndex);
  }

  /** `handleInput` keeps the invariant. */
  lemma InputPreservesInv(st: SessionState, value: string, now: int, seconds: nat)
    requires Inv(st, seconds)
    requires st.isFinished || EndsInSpace(value) || st.currentWordIndex < |st.words|
    ensures Inv(AfterInput(st, value, now, seconds), seconds)
  {
  }

  /** `handleKeyDown` keeps the invariant and the word list, for every key. */
  lemma KeyDownPreservesInv(st: SessionState, key: Key, now: int, seconds: nat)
    requires Inv(st, seconds)
    ensures Inv(AfterKeyDown(st, key, now, seconds), seconds)
    ensures AfterKeyDown(st, key, now, seconds).words == st.words
  {
    if !st.isFinished {
      var started := ClockFor(st, key, now, seconds);
      assert Inv(started, seconds);
      KeyActionPreservesInv(started, key, seconds);
    }
  }

  lemma KeyActionPreservesInv(st: SessionState, key: Key, seconds: nat)
    requires Inv(st, seconds) && !st.isFinished
    ensures Inv(KeyAction(st, key), seconds) && KeyAction(st, key).words == st.words
  {
    if key == Space && |Trim(st.currentInput)| > 0 {
      TrimNonEmptyIffNotBlank(st.currentInput);
      CommitPreservesInv(st, seconds);
    } else if key == Backspace && st.currentInput == "" && st.currentWordIndex > 0 {
      ReopenPreservesInv(st, seconds);
    }
  }

  lemma CommitPreservesInv(st: SessionState, seconds: nat)
    requires Inv(st, seconds) && !st.isFinished && st.currentWordIndex < |st.words|
    ensures Inv(Commit(st), seconds)
  {
    var after := Commit(st);
    forall i | 0 <= i < |after.wordStates|
      ensures after.wordStates[i].status.IsTyped() <==> i < after.currentWordIndex
    {
      if i != st.currentWordIndex {
        assert after.wordStates[i] == st.wordStates[i];
      }
    }
  }

  lemma ReopenPreservesInv(st: SessionState, seconds: nat)
    requires Inv(st, seconds) && !st.isFinished && 0 < st.currentWordIndex
    ensures Inv(Reopen(st), seconds)
  {
    var after := Reopen(st);
    forall i | 0 <= i < |after.wordStates|
      ensures after.wordStates[i].status.IsTyped() <==> i < after.currentWordIndex
    {
      if i != after.currentWordIndex {
        assert after.wordStates[i] == st.wordStates[i];
      }
    }
  }

  /** The countdown keeps the invariant. */
  lemma TickPreservesInv(st: SessionState, now: int, seconds: nat)
    requires Inv(st, seconds)
    requires Started(st.startTime) ==> now >= st.startTime.value
    ensures Inv(AfterTick(st, now, seconds), seconds)
  {
    if Started(st.startTime) && !st.isFinished {
      RemainingWithinDuration(seconds, now - st.startTime.value);
    }
  }

  /**
   * `handleInput`: no effect once finished; the first input starts the
   * clock; a value ending in a space leaves buffer and word states alone;
   * any other value becomes the buffer and only the current word's state
   * changes, to Current with the value's verdicts.
   */
  lemma InputRules(st: SessionState, value: string, now: int, seconds: nat)
    requires Inv(st, seconds)
    requires st.isFinished || EndsInSpace(value) || st.currentWordIndex < |st.words|
    ensures Inv(AfterInput(st, value, now, seconds), seconds)
    ensures st.isFinished ==> AfterInput(st, value, now, seconds) == st
    ensures !st.isFinished ==>
      AfterInput(st, value, now, seconds).startTime == (if Started(st.startTime) then st.startTime else Some(now))
    ensures AfterInput(st, value, now, seconds).currentWordIndex == st.currentWordIndex
    ensures !st.isFinished && EndsInSpace(value) ==>
      AfterInput(st, value, now, seconds).currentInput == st.currentInput &&
      AfterInput(st, value, now, seconds).wordStates == st.wordStates
    ensures !st.isFinished && !EndsInSpace(value) ==>
      var after := AfterInput(st, value, now, seconds);
      after.currentInput == value &&
      |after.wordStates| == |st.wordStates| &&
      after.wordStates[st.currentWordIndex] == WordState(WordCurrent, Verdicts(value, st.words[st.currentWordIndex])) &&
      forall i :: 0 <= i < |st.wordStates| && i != st.currentWordIndex ==> after.wordStates[i] == st.wordStates[i]
  {
    InputPreservesInv(st, value, now, seconds);
  }

  /**
   * Space on a buffer holding a non-space character commits it: the word
   * becomes Correct exactly when the untrimmed buffer equals it, keeps its
   * verdicts, the cursor moves on by one, the buffer is cleared and no other
   * word changes.
   */
  lemma SpaceCommits(st: SessionState, now: int, seconds: nat)
    requires Inv(st, seconds) && !st.isFinished && !IsBlank(st.currentInput)
    ensures st.currentWordIndex < |st.words|
    ensures var after := AfterKeyDown(st, Space, now, seconds);
      var w := st.currentWordIndex;
      Inv(after, seconds) &&
      |after.wordStates| == |st.wordStates| &&
      (after.wordStates[w].status == WordCorrect <==> st.currentInput == st.words[w]) &&
      after.wordStates[w].status.IsTyped() &&
      after.wordStates[w].characters == st.wordStates[w].characters &&
      after.currentWordIndex == w + 1 && after.currentInput == "" &&
      (forall i :: 0 <= i < |st.wordStates| && i != w ==> after.wordStates[i] == st.wordStates[i]) &&
      (Started(st.startTime) ==> after.startTime == st.startTime)
  {
    TrimNonEmptyIffNotBlank(st.currentInput);
    KeyDownPreservesInv(st, Space, now, seconds);
    var started := ClockFor(st, Space, now, seconds);
    assert started.wordStates == st.wordStates && started.currentInput == st.currentInput;
    assert AfterKeyDown(st, Space, now, seconds) == Commit(started);
  }

  /**
   * Typing the current word exactly (the input event delivers it whole)
   * and pressing Space commits it as Correct with every letter Correct.
   */
  lemma TypedWordCommitsCorrect(st: SessionState, now: int, seconds: nat) returns (after: SessionState)
    requires Inv(st, seconds) && !st.isFinished && st.currentWordIndex < |st.words|
    requires !IsBlank(st.words[st.currentWordIndex]) && !EndsInSpace(st.words[st.currentWordIndex])
    ensures Inv(AfterInput(st, st.words[st.currentWordIndex], now, seconds), seconds)
    ensures after == AfterKeyDown(AfterInput(st, st.words[st.currentWordIndex], now, seconds), Space, now, seconds)
    ensures Inv(after, seconds) && after.words == st.words && !after.isFinished
    ensures |after.wordStates| == |st.wordStates|
    ensures after.wordStates[st.currentWordIndex].status == WordCorrect
    ensures forall k :: 0 <= k < |after.wordStates[st.currentWordIndex].characters| ==>
      after.wordStates[st.currentWordIndex].characters[k] == CharCorrect
    ensures after.currentWordIndex == st.currentWordIndex + 1 && after.currentInput == ""
    ensures forall i :: 0 <= i < |st.wordStates| && i != st.currentWordIndex ==> after.wordStates[i] == st.wordStates[i]
    ensures after.startTime == (if Started(st.startTime) then st.startTime else Some(now))
  {
    var w := st.currentWordIndex;
    var typed := AfterInput(st, st.words[w], now, seconds);
    InputRules(st, st.words[w], now, seconds);
    SpaceCommits(typed, now, seconds);
    AllCorrectIffMatch(st.words[w], st.words[w]);
    after := AfterKeyDown(typed, Space, now, seconds);
  }

  /** Space on an empty or all-space buffer does not advance: repeated separators are absorbed. */
  lemma SpaceOnBlankBufferStays(st: SessionState, now: int, seconds: nat)
    requires Inv(st, seconds) && IsBlank(st.currentInput)
    ensures var after := AfterKeyDown(st, Space, now, seconds);
      Inv(after, seconds) &&
      after.currentWordIndex == st.currentWordIndex &&
      after.currentInput == st.currentInput &&
      after.wordStates == st.wordStates
  {
    TrimNonEmptyIffNotBlank(st.currentInput);
    KeyDownPreservesInv(st, Space, now, seconds);
    if !st.isFinished {
      var started := ClockFor(st, Space, now, seconds);
      assert KeyAction(started, Space) == started;
    }
  }

  /**
   * Space is idempotent: a second Space at the same moment finds the buffer
   * cleared (or still blank) and changes nothing, so a repeated separator
   * never commits a word twice.
   */
  lemma SpaceIsIdempotent(st: SessionState, now: int, seconds: nat)
    requires Inv(st, seconds)
    ensures Inv(AfterKeyDown(st, Space, now, seconds), seconds)
    ensures AfterKeyDown(AfterKeyDown(st, Space, now, seconds), Space, now, seconds) == AfterKeyDown(st, Space, now, seconds)
  {
    KeyDownPreservesInv(st, Space, now, seconds);
    if !st.isFinished {
      var started := ClockFor(st, Space, now, seconds);
      var once := KeyAction(started, Space);
      TrimNonEmptyIffNotBlank(st.currentInput);
      assert once.currentInput == "" || once.currentInput == st.currentInput;
      TrimNonEmptyIffNotBlank(once.currentInput);
      assert once.startTime == started.startTime && once.timeLeft == started.timeLeft;
      assert ClockFor(once, Space, now, seconds) == once;
      assert KeyAction(once, Space) == once;
    }
  }

  /**
   * Backspace acts only on an empty buffer past the first word: it resets
   * just the previous word to Pending with no verdicts, moves the cursor back
   * and puts that word's text in the buffer; otherwise the words, cursor and
   * buffer stay as they were.
   */
  lemma BackspaceRules(st: SessionState, now: int, seconds: nat)
    requires Inv(st, seconds) && !st.isFinished
    ensures var after := AfterKeyDown(st, Backspace, now, seconds);
      Inv(after, seconds) &&
      if st.currentInput == "" && st.currentWordIndex > 0 then
        var w := st.currentWordIndex - 1;
        |after.wordStates| == |st.wordStates| &&
        after.wordStates[w] == WordState(WordPending, []) &&
        (forall i :: 0 <= i < |st.wordStates| && i != w ==> after.wordStates[i] == st.wordStates[i]) &&
        after.currentWordIndex == w && after.currentInput == st.words[w]
      else
        after.wordStates == st.wordStates && after.currentWordIndex == st.currentWordIndex &&
        after.currentInput == st.currentInput
  {
  }

  /**
   * Every key keeps the invariant, starts the clock unless it is Tab, and
   * moves the cursor by at most one; it moves back only for Backspace on an
   * empty buffer.
   */
  lemma KeyDownRules(st: SessionState, key: Key, now: int, seconds: nat)
    requires Inv(st, seconds)
    ensures var after := AfterKeyDown(st, key, now, seconds);
      Inv(after, seconds) &&
      after.words == st.words &&
      (!st.isFinished ==> after.startTime == (if Started(st.startTime) || key == Tab then st.startTime else Some(now))) &&
      st.currentWordIndex - 1 <= after.currentWordIndex <= st.currentWordIndex + 1 &&
      (after.currentWordIndex < st.currentWordIndex ==> key == Backspace && st.currentInput == "")
  {
    KeyDownPreservesInv(st, key, now, seconds);
    if !st.isFinished && key == Space && |Trim(st.currentInput)| > 0 {
      TrimNonEmptyIffNotBlank(st.currentInput);
      SpaceCommits(st, now, seconds);
    }
  }

  /**
   * The countdown: nothing happens before the clock starts or after the
   * end; otherwise the remaining time is `max(0, seconds - elapsed seconds)`,
   * the session finishes exactly when it reaches zero, and the final score is
   * between 5 and 15 points per word per minute. The live and final words
   * per minute and accuracy are the statistics of the current word states;
   * when every committed word is correct, the final accuracy is 100.
   */
  lemma TickRules(st: SessionState, now: int, seconds: nat)
    requires Inv(st, seconds)
    requires Started(st.startTime) ==> now >= st.startTime.value
    ensures Inv(AfterTick(st, now, seconds), seconds)
    ensures !Started(st.startTime) || st.isFinished ==> AfterTick(st, now, seconds) == st
    ensures Started(st.startTime) && !st.isFinished ==>
      var after := AfterTick(st, now, seconds);
      after.timeLeft == RemainingSeconds(seconds, now - st.startTime.value) &&
      0 <= after.timeLeft <= seconds &&
      (after.isFinished <==> after.timeLeft == 0) &&
      (after.isFinished ==> 5 * after.wpm <= after.score <= 15 * after.wpm) &&
      ((after.isFinished && 0 < seconds && 0 < st.currentWordIndex &&
        CorrectCount(st.wordStates) == st.currentWordIndex) ==> after.accuracy == 100)
    ensures Started(st.startTime) && !st.isFinished ==>
      LiveStats(AfterTick(st, now, seconds).wpm, AfterTick(st, now, seconds).accuracy) ==
      CalculateStats(st.startTime, AfterTick(st, now, seconds).timeLeft, seconds, st.wordStates, now)
    ensures AfterTick(st, now, seconds).wordStates == st.wordStates
    ensures AfterTick(st, now, seconds).currentWordIndex == st.currentWordIndex
    ensures AfterTick(st, now, seconds).currentInput == st.currentInput
    ensures AfterTick(st, now, seconds).startTime == st.startTime
  {
    TickPreservesInv(st, now, seconds);
    if Started(st.startTime) && !st.isFinished {
      var elapsed := now - st.startTime.value;
      RemainingWithinDuration(seconds, elapsed);
      var left := RemainingSeconds(seconds, elapsed);
      var live := CalculateStats(st.startTime, left, seconds, st.wordStates, now);
      ScoreBounds(live.wpm, live.accuracy);
      TypedWordsEqualIndex(st, seconds);
      if left == 0 && 0 < seconds && 0 < st.currentWordIndex && CorrectCount(st.wordStates) == st.currentWordIndex {
        AccuracyExtremes(st.startTime, left, seconds, st.wordStates, now);
      }
    }
  }

  /** Once finished, neither input, nor keys, nor the clock change anything. */
  lemma FinishedIsTerminal(st: SessionState, value: string, key: Key, now: int, seconds: nat)
    requires Inv(st, seconds) && st.isFinished
    requires Started(st.startTime) ==> now >= st.startTime.value
    ensures AfterInput(st, value, now, seconds) == st
    ensures AfterKeyDown(st, key, now, seconds) == st
    ensures AfterTick(st, now, seconds) == st
  {
  }

  /**
   * A fifteen-second session started at 1000 ms with two words committed,
   * both correct, when the clock runs out at 16000 ms: accuracy 100, 8 words
   * per minute, score 120; a later tick changes nothing. The interval as
   * written ends the same session with score 0.
   */
  lemma TimeUpWithTwoCorrectWords(st: SessionState)
    requires Inv(st, 15) && !st.isFinished && st.startTime == Some(1000)
    requires st.currentWordIndex == 2 && CorrectCount(st.wordStates) == 2
    ensures AfterTick(st, 16000, 15).isFinished
    ensures AfterTick(st, 16000, 15).accuracy == 100
    ensures AfterTick(st, 16000, 15).wpm == 8
    ensures AfterTick(st, 16000, 15).score == 120
    ensures AfterTick(AfterTick(st, 16000, 15), 17000, 15) == AfterTick(st, 16000, 15)
    ensures AfterTickAsWritten(st, 16000, 15).isFinished && AfterTickAsWritten(st, 16000, 15).score == 0
  {
    AsWrittenTickScoresZero(st, 16000, 15);
    TypedWordsEqualIndex(st, 15);
    assert RemainingSeconds(15, 15000) == 0;
    var live := CalculateStats(Some(1000), 0, 15, st.wordStates, 16000);
    assert live == LiveStats(RoundRatio(2 * MsPerMinute, 15000), RoundRatio(100 * 2, 2));
    assert live == LiveStats(8, 100);
    assert Score(8, 100) == 120;
  }

  class TypingSession {
    var words: seq<string>
    var currentWordIndex: nat
    var currentInput: string
    var startTime: Option<int>
    var timeLeft: int
    var isFinished: bool
    var wordStates: seq<WordState>
    const timeMode: TimeMode
    var wpm: int
    var accuracy: int
    var score: int
    var showResults: bool

    /** The fields as one value. */
    function Snapshot(): SessionState
      reads this
    {
      SessionState(words, currentWordIndex, currentInput, startTime, timeLeft, isFinished,
                   wordStates, wpm, accuracy, score, showResults)
    }

    ghost predicate Valid()
      reads this
    {
      Inv(Snapshot(), timeMode.Seconds())
    }

    /** Mounting the component in mode `mode`: its first `initializeTest` with the supplier's words. */
    constructor (mode: TimeMode, newWords: seq<string>)
      ensures Valid() && timeMode == mode
      ensures Snapshot() == Fresh(newWords, mode.Seconds())
    {
      timeMode := mode;
      new;
      InitializeTest(newWords);
    }

    /** `initializeTest`, given the words the supplier resolved to. */
    method InitializeTest(newWords: seq<string>)
      modifies this
      ensures Snapshot() == Fresh(newWords, timeMode.Seconds())
      ensures Valid()
    {
      words := newWords;
      currentWordIndex := 0;
      currentInput := "";
      startTime := None;
      timeLeft := timeMode.Seconds();
      wordStates := seq(|newWords|, _ => Untouched);
      wpm := 0;
      accuracy := 0;
      score := 0;
      showResults := false;
      isFinished := false;
      assert Snapshot() == Fresh(newWords, timeMode.Seconds());
      FreshIsValid(newWords, timeMode.Seconds());
    }

    /** `handleReset`: discard the session and initialise a new one. */
    method HandleReset(newWords: seq<string>)
      modifies this
      ensures Snapshot() == Fresh(newWords, timeMode.Seconds())
      ensures Valid()
    {
      InitializeTest(newWords);
    }

    /** The number of committed words, which the invariant ties to the cursor. */
    function TypedWordCount(): (n: nat)
      reads this
      requires Valid()
      ensures n == currentWordIndex
    {
      TypedWordsEqualIndex(Snapshot(), timeMode.Seconds());
      TypedCount(wordStates)
    }

    method StartClock(now: int)
      modifies this`startTime, this`timeLeft
      ensures Snapshot() == Begin(old(Snapshot()), now, timeMode.Seconds())
    {
      startTime := Some(now);
      timeLeft := timeMode.Seconds();
    }

    method UpdateCurrentWordState(input: string)
      requires currentWordIndex < |words| && |wordStates| == |words|
      modifies this`wordStates
      ensures Snapshot() == Refresh(old(Snapshot()), input)
    {
      var currentWord := words[currentWordIndex];
      var characterStates := ComputeVerdicts(input, currentWord);
      wordStates := wordStates[currentWordIndex := WordState(WordCurrent, characterStates)];
    }

    method CheckWord()
      requires currentWordIndex < |words| && |wordStates| == |words|
      modifies this`wordStates, this`currentWordIndex, this`currentInput
      ensures Snapshot() == Commit(old(Snapshot()))
    {
      var currentWord := words[currentWordIndex];
      var isCorrect := currentInput == currentWord;
      wordStates := wordStates[currentWordIndex :=
        WordState(if isCorrect then WordCorrect else WordIncorrect, wordStates[currentWordIndex].characters)];
      currentWordIndex := currentWordIndex + 1;
      currentInput := "";
    }

    method HandleInput(value: string, now: int)
      requires Valid()
      requires isFinished || EndsInSpace(value) || currentWordIndex < |words|
      modifies this
      ensures Snapshot() == AfterInput(old(Snapshot()), value, now, timeMode.Seconds())
      ensures Valid()
    {
      ghost var before := Snapshot();
      InputPreservesInv(before, value, now, timeMode.Seconds());
      if isFinished {
        return;
      }
      if !Started(startTime) {
        StartClock(now);
      }
      if !EndsInSpace(value) {
        currentInput := value;
        UpdateCurrentWordState(value);
      }
    }

    method HandleKeyDown(key: Key, now: int)
      requires Valid()
      modifies this
      ensures Snapshot() == AfterKeyDown(old(Snapshot()), key, now, timeMode.Seconds())
      ensures Valid()
    {
      ghost var before := Snapshot();
      KeyDownPreservesInv(before, key, now, timeMode.Seconds());
      if isFinished {
        return;
      }
      if !Started(startTime) && key != Tab {
        StartClock(now);
      }
      assert Snapshot() == ClockFor(before, key, now, timeMode.Seconds());
      ApplyKey(key);
    }

    /** The key step, on the fields. */
    method ApplyKey(key: Key)
      requires WellFormed(Snapshot())
      modifies this`wordStates, this`currentWordIndex, this`currentInput
      ensures Snapshot() == KeyAction(old(Snapshot()), key)
    {
      if key == Space {
        var trimmedInput := Trim(currentInput);
        if |trimmedInput| > 0 {
          TrimNonEmptyIffNotBlank(currentInput);
          CheckWord();
        }
      } else if key == Backspace {
        if currentInput == "" && currentWordIndex > 0 {
          wordStates := wordStates[currentWordIndex - 1 := Untouched];
          currentWordIndex := currentWordIndex - 1;
          currentInput := words[currentWordIndex];
        }
      }
    }

    method CalculateScore(finalWpm: int, finalAccuracy: int)
      modifies this`wpm, this`accuracy, this`score, this`showResults
      ensures Snapshot() == old(Snapshot()).(wpm := finalWpm, accuracy := finalAccuracy,
                                             score := Score(finalWpm, finalAccuracy), showResults := true)
    {
      wpm := finalWpm;
      accuracy := finalAccuracy;
      score := Score(finalWpm, finalAccuracy);
      showResults := true;
    }

    method Tick(now: int)
      requires Valid()
      requires Started(startTime) ==> now >= startTime.value
      modifies this
      ensures Snapshot() == AfterTick(old(Snapshot()), now, timeMode.Seconds())
      ensures Valid()
    {
      ghost var before := Snapshot();
      TickPreservesInv(before, now, timeMode.Seconds());
      if !Started(startTime) || isFinished {
        return;
      }
      var seconds := timeMode.Seconds();
      var elapsedMs := now - startTime.value;
      var newTimeLeft := RemainingSeconds(seconds, elapsedMs);
      RemainingWithinDuration(seconds, elapsedMs);
      timeLeft := newTimeLeft;
      var stats := CalculateStats(startTime, timeLeft, seconds, wordStates, now);
      wpm := stats.wpm;
      accuracy := stats.accuracy;
      if newTimeLeft == 0 {
        isFinished := true;
        var finalStats := CalculateStats(startTime, timeLeft, seconds, wordStates, now);
        CalculateScore(finalStats.wpm, finalStats.accuracy);
      }
    }
  }
}
