/**
 * The statistics of a typing session: typed and correct word counts, live
 * words-per-minute and accuracy, the final score and the remaining time of
 * the countdown. Every quantity is an exact integer; `Math.round` on a ratio
 * is `RoundRatio`.
 */
module Stats {
  import opened Common
  import opened Typing

  /** Milliseconds in a minute and in a second. */
  const MsPerMinute := 60000
  const MsPerSecond := 1000

  datatype LiveStats = LiveStats(wpm: int, accuracy: int)

  /**
   * `Math.round(n / d)` for a positive divisor: the integer nearest to
   * `n / d`, halves rounded up.
   */
  function RoundRatio(n: int, d: int): (r: int)
    requires d > 0
    ensures 2 * d * r <= 2 * n + d < 2 * d * (r + 1)
  {
    (2 * n + d) / (2 * d)
  }

  /** Cancelling a positive factor on both sides of a strict inequality. */
  lemma CancelPositive(d: int, a: int, b: int)
    ensures d > 0 && d * a < d * b ==> a < b
  {
  }

  /** Multiplying both sides of an inequality by a non-negative factor. */
  lemma ScaleNonNegative(c: int, a: int, b: int)
    ensures c >= 0 && a <= b ==> c * a <= c * b
  {
  }

  /** Rounding a ratio in `[0, k]` stays in `[0, k]`. */
  lemma RoundRatioWithin(n: int, d: int, k: int)
    requires d > 0 && 0 <= n <= k * d
    ensures 0 <= RoundRatio(n, d) <= k
  {
    var r := RoundRatio(n, d);
    CancelPositive(d, 1, 2 * r + 2);
    CancelPositive(d, 2 * r, 2 * k + 2);
  }

  /** Rounding is exact on whole quotients. */
  lemma RoundRatioExact(k: int, d: int)
    requires d > 0
    ensures RoundRatio(k * d, d) == k
  {
    var r := RoundRatio(k * d, d);
    CancelPositive(d, 2 * r, 2 * k + 2);
    CancelPositive(d, 2 * k, 2 * r + 2);
  }

  /** Rounding is monotone in the numerator. */
  lemma RoundRatioMonotone(n1: int, n2: int, d: int)
    requires d > 0 && n1 <= n2
    ensures RoundRatio(n1, d) <= RoundRatio(n2, d)
  {
    var r1, r2 := RoundRatio(n1, d), RoundRatio(n2, d);
    CancelPositive(d, 2 * r1, 2 * r2 + 2);
  }

  /** Number of committed words: status Correct or Incorrect. */
  function TypedCount(states: seq<WordState>): (n: nat)
    ensures n <= |states|
  {
    if |states| == 0 then 0
    else TypedCount(states[..|states| - 1]) + (if states[|states| - 1].status.IsTyped() then 1 else 0)
  }

  /** Number of words committed as Correct. */
  function CorrectCount(states: seq<WordState>): (n: nat)
    ensures n <= TypedCount(states)
  {
    if |states| == 0 then 0
    else CorrectCount(states[..|states| - 1]) + (if states[|states| - 1].status == WordCorrect then 1 else 0)
  }

  /**
   * When exactly the words before position `k` are committed, `k` words
   * have been typed.
   */
  lemma {:induction false} TypedCountIsBoundary(states: seq<WordState>, k: nat)
    requires k <= |states|
    requires forall i :: 0 <= i < |states| ==> (states[i].status.IsTyped() <==> i < k)
    ensures TypedCount(states) == k
  {
    if |states| > 0 {
      var p := states[..|states| - 1];
      if k == |states| {
        TypedCountIsBoundary(p, k - 1);
      } else {
        TypedCountIsBoundary(p, k);
      }
    }
  }

  /** JavaScript truthiness of `startTime`: neither null nor 0. */
  predicate Started(startTime: Option<int>)
  {
    startTime.Some? && startTime.value != 0
  }

  /**
   * The inputs on which `calculateStats` yields a number: when it reaches the
   * division with words typed, some time has elapsed.
   */
  predicate StatsDefined(startTime: Option<int>, timeLeft: int, seconds: int, states: seq<WordState>, now: int)
  {
    !Started(startTime) || timeLeft == seconds || TypedCount(states) == 0 || now > startTime.value
  }

  /**
   * `calculateStats`, with the current time `now` in milliseconds: zero
   * before the clock has started or while the full duration is left;
   * otherwise the rounded words per minute and percentage of correct words.
   */
  function CalculateStats(startTime: Option<int>, timeLeft: int, seconds: int, states: seq<WordState>, now: int): (r: LiveStats)
    requires StatsDefined(startTime, timeLeft, seconds, states, now)
    ensures 0 <= r.wpm && 0 <= r.accuracy <= 100
    ensures !Started(startTime) || timeLeft == seconds || TypedCount(states) == 0 ==> r == LiveStats(0, 0)
    ensures Started(startTime) && timeLeft != seconds && TypedCount(states) > 0 ==>
      var typed, correct, elapsed := TypedCount(states), CorrectCount(states), now - startTime.value;
      2 * elapsed * r.wpm <= 2 * typed * MsPerMinute + elapsed < 2 * elapsed * (r.wpm + 1) &&
      2 * typed * r.accuracy <= 200 * correct + typed < 2 * typed * (r.accuracy + 1)
  {
    if !Started(startTime) || timeLeft == seconds then LiveStats(0, 0)
    else
      var typed, correct := TypedCount(states), CorrectCount(states);
      if typed == 0 then LiveStats(0, 0)
      else
        var elapsed := now - startTime.value;
        RoundRatioWithin(typed * MsPerMinute, elapsed, typed * MsPerMinute);
        RoundRatioWithin(100 * correct, typed, 100);
        LiveStats(RoundRatio(typed * MsPerMinute, elapsed), RoundRatio(100 * correct, typed))
  }

  /** All committed words correct gives 100% accuracy; none correct gives 0%. */
  lemma AccuracyExtremes(startTime: Option<int>, timeLeft: int, seconds: int, states: seq<WordState>, now: int)
    requires StatsDefined(startTime, timeLeft, seconds, states, now)
    requires Started(startTime) && timeLeft != seconds && TypedCount(states) > 0
    ensures CorrectCount(states) == TypedCount(states) ==> CalculateStats(startTime, timeLeft, seconds, states, now).accuracy == 100
    ensures CorrectCount(states) == 0 ==> CalculateStats(startTime, timeLeft, seconds, states, now).accuracy == 0
  {
    var typed := TypedCount(states);
    RoundRatioExact(100, typed);
    RoundRatioExact(0, typed);
  }

  /**
   * The accuracy multiplier in hundredths:
   * `max(0.5, 1 + (accuracy - 50) / 100)` is `max(50, 50 + accuracy) / 100`.
   */
  function MultiplierPercent(accuracy: int): int
  {
    Max(50, 50 + accuracy)
  }

  /**
   * The final score of `calculateScore`:
   * `round(wpm * 10 * multiplier)`, that is `round(wpm * 10 * m / 100)`.
   */
  function Score(wpm: int, accuracy: int): int
  {
    RoundRatio(wpm * 10 * MultiplierPercent(accuracy), 100)
  }

  /** The score lies between 0.5x and 1.5x of ten points per word per minute. */
  lemma ScoreBounds(wpm: int, accuracy: int)
    requires 0 <= wpm && 0 <= accuracy <= 100
    ensures 5 * wpm <= Score(wpm, accuracy) <= 15 * wpm
  {
    var m := MultiplierPercent(accuracy);
    var n := wpm * 10 * m;
    assert 500 * wpm <= n <= 1500 * wpm by {
      ScaleNonNegative(wpm, 50, m);
      ScaleNonNegative(wpm, m, 150);
    }
    RoundRatioMonotone(500 * wpm, n, 100);
    RoundRatioMonotone(n, 1500 * wpm, 100);
    RoundRatioExact(5 * wpm, 100);
    RoundRatioExact(15 * wpm, 100);
  }

  /** The multiplier is clamped at 0.5: at 0% accuracy or below the score is five points per wpm. */
  lemma ScoreFloor(wpm: int, accuracy: int)
    requires accuracy <= 0
    ensures Score(wpm, accuracy) == 5 * wpm
  {
    assert wpm * 10 * MultiplierPercent(accuracy) == (5 * wpm) * 100;
    RoundRatioExact(5 * wpm, 100);
  }

  /** Higher accuracy never lowers the score. */
  lemma ScoreMonotoneInAccuracy(wpm: int, a1: int, a2: int)
    requires 0 <= wpm && a1 <= a2
    ensures Score(wpm, a1) <= Score(wpm, a2)
  {
    var m1, m2 := MultiplierPercent(a1), MultiplierPercent(a2);
    ScaleNonNegative(wpm, m1, m2);
    RoundRatioMonotone(wpm * 10 * m1, wpm * 10 * m2, 100);
  }

  /** The worked examples of the scoring rule. */
  lemma ScoreExamples()
    ensures Score(60, 100) == 900
    ensures Score(40, 50) == 400
    ensures Score(20, 0) == 100
  {
  }

  /**
   * The countdown after `elapsedMs` milliseconds of a `seconds` session:
   * `max(0, seconds - floor(elapsedMs / 1000))`.
   */
  function RemainingSeconds(seconds: int, elapsedMs: int): int
  {
    Max(0, seconds - elapsedMs / MsPerSecond)
  }

  /** Once the clock runs forward, the remaining time is within `[0, seconds]`. */
  lemma RemainingWithinDuration(seconds: nat, elapsedMs: int)
    requires elapsedMs >= 0
    ensures 0 <= RemainingSeconds(seconds, elapsedMs) <= seconds
  {
  }

  /** The remaining time never goes up as time passes. */
  lemma RemainingNonIncreasing(seconds: int, e1: int, e2: int)
    requires e1 <= e2
    ensures RemainingSeconds(seconds, e2) <= RemainingSeconds(seconds, e1)
  {
    assert e1 / MsPerSecond <= e2 / MsPerSecond;
  }

  /** The countdown reaches zero exactly when the full duration has elapsed. */
  lemma RemainingZeroIff(seconds: int, elapsedMs: int)
    ensures RemainingSeconds(seconds, elapsedMs) == 0 <==> elapsedMs >= seconds * MsPerSecond
  {
  }

  /**
   * What the armed countdown interval computes as written: it calls the
   * `calculateStats` of the render that started the clock, where `timeLeft`
   * still equals the full duration, so it sees zero whatever was typed.
   */
  function ArmedIntervalStats(startTime: Option<int>, seconds: int, states: seq<WordState>, now: int): LiveStats
  {
    CalculateStats(startTime, seconds, seconds, states, now)
  }

  /** As written, the live and the final statistics are always zero, and so is the score. */
  lemma ArmedIntervalStatsAreZero(startTime: Option<int>, seconds: int, states: seq<WordState>, now: int)
    ensures ArmedIntervalStats(startTime, seconds, states, now) == LiveStats(0, 0)
    ensures Score(0, 0) == 0
  {
  }
}
