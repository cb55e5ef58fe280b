/**
 * Per-word and per-character state of a typing session, as kept by the
 * `App` component: the verdict of every typed character against its target
 * word, and the whitespace trimming used to decide whether a word may be
 * committed.
 */
module Typing {
  import opened Common

  /** Verdict of one character position of a word (`characters[i]`). */
  datatype CharState = CharPending | CharCorrect | CharIncorrect

  /** Status of a whole word (`wordStates[i].status`). */
  datatype WordStatus = WordPending | WordCurrent | WordCorrect | WordIncorrect
  {
    /** A word that has been committed: it counts as typed. */
    predicate IsTyped() { this == WordCorrect || this == WordIncorrect }
  }

  datatype WordState = WordState(status: WordStatus, characters: seq<CharState>)

  /** The state every word starts in, and the state back-navigation restores. */
  const Untouched := WordState(WordPending, [])

  /** The verdict for position `i` when `input` is typed against `word`. */
  function Classify(input: string, word: string, i: nat): CharState
  {
    if i >= |input| then CharPending
    else if i >= |word| then CharIncorrect
    else if input[i] == word[i] then CharCorrect
    else CharIncorrect
  }

  /** The verdict sequence of `input` typed against `word`. */
  function Verdicts(input: string, word: string): seq<CharState>
  {
    seq(Max(|input|, |word|), i requires 0 <= i < Max(|input|, |word|) => Classify(input, word, i))
  }

  /**
   * The loop of `updateCurrentWordState`: one verdict per position up to the
   * longer of the input and the word.
   */
  method ComputeVerdicts(input: string, word: string) returns (chars: seq<CharState>)
    ensures |chars| == Max(|input|, |word|)
    ensures forall i :: |input| <= i < |chars| ==> chars[i] == CharPending
    ensures forall i :: |word| <= i < |input| ==> chars[i] == CharIncorrect
    ensures forall i :: 0 <= i < |input| && i < |word| ==> (chars[i] == CharCorrect <==> input[i] == word[i])
    ensures forall i :: 0 <= i < |input| && i < |word| ==> chars[i] != CharPending
    ensures chars == Verdicts(input, word)
  {
    chars := [];
    var n := Max(|input|, |word|);
    var i := 0;
    while i < n
      invariant 0 <= i <= n
      invariant |chars| == i
      invariant forall k :: 0 <= k < i ==> chars[k] == Classify(input, word, k)
    {
      if i >= |input| {
        chars := chars + [CharPending];
      } else if i >= |word| {
        chars := chars + [CharIncorrect];
      } else {
        chars := chars + [if input[i] == word[i] then CharCorrect else CharIncorrect];
      }
      i := i + 1;
    }
  }

  /** Every verdict is Correct exactly when the input is the word itself. */
  lemma AllCorrectIffMatch(input: string, word: string)
    ensures (forall i :: 0 <= i < |Verdicts(input, word)| ==> Verdicts(input, word)[i] == CharCorrect)
            <==> input == word
  {
    var v := Verdicts(input, word);
    if input != word {
      var k := FirstDifference(input, word);
      assert v[k] != CharCorrect;
    }
  }

  /** No position is marked Incorrect exactly when the input is a prefix of the word. */
  lemma NoIncorrectIffPrefix(input: string, word: string)
    ensures (forall i :: 0 <= i < |Verdicts(input, word)| ==> Verdicts(input, word)[i] != CharIncorrect)
            <==> input <= word
  {
    var v := Verdicts(input, word);
    if !(input <= word) {
      var k := FirstDifference(input, word);
      assert v[k] == CharIncorrect;
    }
  }

  /**
   * A position below the longer length where `a` and `b` disagree: either
   * one string has ended there, or the characters differ; every earlier
   * position agrees.
   */
  lemma FirstDifference(a: string, b: string) returns (k: nat)
    requires a != b
    ensures k < Max(|a|, |b|) && k <= |a| && k <= |b|
    ensures k == |a| || k == |b| || a[k] != b[k]
    ensures a[..k] == b[..k]
  {
    k := 0;
    while k < |a| && k < |b| && a[k] == b[k]
      invariant k <= |a| && k <= |b|
      invariant a[..k] == b[..k]
    {
      k := k + 1;
    }
    assert a[..|a|] == a && b[..|b|] == b;
  }

  /** Typing one more character leaves the verdicts of earlier positions as they were. */
  lemma AppendKeepsEarlierVerdicts(input: string, c: char, word: string, i: nat)
    requires i < |input|
    ensures i < |Verdicts(input + [c], word)| && i < |Verdicts(input, word)|
    ensures Verdicts(input + [c], word)[i] == Verdicts(input, word)[i]
  {
  }

  /**
   * The characters `String.prototype.trim` removes: the ECMAScript
   * WhiteSpace and LineTerminator code points.
   */
  predicate IsJsSpace(c: char)
  {
    c == ' ' || c == '\t' || c == '\n' || c == '\r' || c == '\U{B}' || c == '\U{C}' ||
    c == '\U{A0}' || c == '\U{1680}' || ('\U{2000}' <= c <= '\U{200A}') ||
    c == '\U{2028}' || c == '\U{2029}' || c == '\U{202F}' || c == '\U{205F}' ||
    c == '\U{3000}' || c == '\U{FEFF}'
  }

  /** A string made only of whitespace (the empty string included). */
  predicate IsBlank(s: string)
  {
    forall i :: 0 <= i < |s| ==> IsJsSpace(s[i])
  }

  /** `s` with its leading whitespace removed. */
  function TrimStart(s: string): (r: string)
    ensures |r| <= |s| && r == s[|s| - |r|..]
    ensures IsBlank(s[..|s| - |r|])
    ensures |r| > 0 ==> !IsJsSpace(r[0])
  {
    if |s| > 0 && IsJsSpace(s[0]) then
      var r := TrimStart(s[1..]);
      assert s[1..][..|s[1..]| - |r|] == s[1..|s| - |r|];
      r
    else s
  }

  /** `s` with its trailing whitespace removed. */
  function TrimEnd(s: string): (r: string)
    ensures |r| <= |s| && r == s[..|r|]
    ensures IsBlank(s[|r|..])
    ensures |r| > 0 ==> !IsJsSpace(r[|r| - 1])
  {
    if |s| > 0 && IsJsSpace(s[|s| - 1]) then
      var r := TrimEnd(s[..|s| - 1]);
      assert s[..|s| - 1][|r|..] + [s[|s| - 1]] == s[|r|..];
      r
    else s
  }

  /** `String.prototype.trim`. */
  function Trim(s: string): string
  {
    TrimEnd(TrimStart(s))
  }

  /** The trimmed input is non-empty exactly when the input holds a non-space character. */
  lemma {:induction false} TrimNonEmptyIffNotBlank(s: string)
    ensures |Trim(s)| > 0 <==> !IsBlank(s)
  {
    var t := TrimStart(s);
    var k := |s| - |t|;
    if |Trim(s)| > 0 {
      var r := Trim(s);
      assert r[0] == t[0] == s[k];
    } else {
      assert t[0..] == t;
      assert |t| == 0;
      assert s[..k] == s;
    }
  }
}
