/**
 * The word supplier: a module-level word list fetched once (or replaced by
 * a built-in list when the fetch fails), shuffled with Fisher-Yates, of
 * which the first fifty words make a session. The random draws of the
 * shuffle are given as `choices`: `choices[i]` is the index drawn when the
 * loop is at position `i`.
 */
module WordService {
  import opened Common

  /** Number of words handed to a session. */
  const SessionLength := 50

  /** The built-in list used when the word list cannot be fetched. */
  const FallbackWords: seq<string> := [
    "the", "be", "to", "of", "and", "a", "in", "that", "have", "i",
    "it", "for", "not", "on", "with", "he", "as", "you", "do", "at",
    "this", "but", "his", "by", "from", "they", "we", "say", "her", "she",
    "or", "an", "will", "my", "one", "all", "would", "there", "their", "what",
    "so", "up", "out", "if", "about", "who", "get", "which", "go", "me",
    "when", "make", "can", "like", "time", "no", "just", "him", "know", "take",
    "people", "into", "year", "your", "good", "some", "could", "them", "see", "other",
    "than", "then", "now", "look", "only", "come", "its", "over", "think", "also"
  ]

  /** How the word-list request ended: the list it delivered, or a failure. */
  datatype FetchOutcome = Fetched(words: seq<string>) | FetchFailed

  /** Random draws fit for a list of `n` words: the draw at position `i` is in `[0, i]`. */
  predicate ValidChoices(choices: seq<nat>, n: nat)
  {
    |choices| >= n && forall i :: 0 <= i < n ==> choices[i] <= i
  }

  /** The exchange of positions `i` and `j`. */
  function Swap<T>(s: seq<T>, i: nat, j: nat): (r: seq<T>)
    requires i < |s| && j < |s|
    ensures |r| == |s| && r[i] == s[j] && r[j] == s[i]
    ensures forall k :: 0 <= k < |s| && k != i && k != j ==> r[k] == s[k]
  {
    s[i := s[j]][j := s[i]]
  }

  /** The swaps of the shuffle loop from position `i` down to position 1. */
  function ShuffleDown<T>(s: seq<T>, choices: seq<nat>, i: nat): (r: seq<T>)
    requires i < |s| && ValidChoices(choices, |s|)
    ensures |r| == |s|
    decreases i
  {
    if i == 0 then s else ShuffleDown(Swap(s, i, choices[i]), choices, i - 1)
  }

  /** The result of `shuffleArray` for the given draws. */
  function Shuffled<T>(s: seq<T>, choices: seq<nat>): seq<T>
    requires ValidChoices(choices, |s|)
  {
    if |s| == 0 then s else ShuffleDown(s, choices, |s| - 1)
  }

  /** Every step of the shuffle keeps the length and the multiset of elements. */
  lemma {:induction false} ShuffleDownIsPermutation<T>(s: seq<T>, choices: seq<nat>, i: nat)
    requires i < |s| && ValidChoices(choices, |s|)
    ensures multiset(ShuffleDown(s, choices, i)) == multiset(s)
    decreases i
  {
    if i > 0 {
      var t := Swap(s, i, choices[i]);
      ShuffleDownIsPermutation(t, choices, i - 1);
    }
  }

  /** The shuffle is a permutation of its argument. */
  lemma ShuffledIsPermutation<T>(s: seq<T>, choices: seq<nat>)
    requires ValidChoices(choices, |s|)
    ensures |Shuffled(s, choices)| == |s|
    ensures multiset(Shuffled(s, choices)) == multiset(s)
  {
    if |s| > 0 {
      ShuffleDownIsPermutation(s, choices, |s| - 1);
    }
  }

  /**
   * `shuffleArray`: copy the argument into a new array and, from the last
   * position down to position 1, exchange position `i` with the drawn
   * position `choices[i]`. The argument is a value and is left as it was.
   */
  method ShuffleArray<T>(s: seq<T>, choices: seq<nat>) returns (r: seq<T>)
    requires ValidChoices(choices, |s|)
    ensures r == Shuffled(s, choices)
    ensures |r| == |s| && multiset(r) == multiset(s)
  {
    var shuffled := new T[|s|](k requires 0 <= k < |s| => s[k]);
    assert shuffled[..] == s;
    var i := |s| - 1;
    while i > 0
      invariant -1 <= i < |s| && (|s| > 0 ==> 0 <= i)
      invariant shuffled.Length == |s|
      invariant i >= 0 ==> ShuffleDown(shuffled[..], choices, i) == Shuffled(s, choices)
    {
      var j := choices[i];
      shuffled[i], shuffled[j] := shuffled[j], shuffled[i];
      i := i - 1;
    }
    r := shuffled[..];
    ShuffledIsPermutation(s, choices);
  }

  /** The first `SessionLength` words of a shuffle of `list`. */
  function SessionWords(list: seq<string>, choices: seq<nat>): (r: seq<string>)
    requires ValidChoices(choices, |list|)
    ensures |r| == Min(SessionLength, |list|)
    ensures multiset(r) <= multiset(list)
    ensures forall w :: w in r ==> w in list
  {
    var shuffled := Shuffled(list, choices);
    ShuffledIsPermutation(list, choices);
    var r := shuffled[..Min(SessionLength, |list|)];
    assert shuffled == r + shuffled[|r|..];
    assert forall w :: w in r ==> w in multiset(list);
    r
  }

  /**
   * The list `getWords` shuffles: the cached list when it is non-empty;
   * otherwise what the fetch delivered, or the built-in list on failure.
   */
  function ResolveWordList(cached: seq<string>, outcome: FetchOutcome): (r: seq<string>)
    ensures |cached| > 0 ==> r == cached
    ensures |cached| == 0 && outcome.FetchFailed? ==> r == FallbackWords && |r| == 80
    ensures |cached| == 0 && outcome.Fetched? ==> r == outcome.words
  {
    if |cached| > 0 then cached
    else match outcome
      case Fetched(words) => words
      case FetchFailed => FallbackWords
  }

  /** After a failed fetch a session still gets exactly fifty words. */
  lemma FailedFetchGivesFullSession(choices: seq<nat>)
    requires ValidChoices(choices, |FallbackWords|)
    ensures |SessionWords(ResolveWordList([], FetchFailed), choices)| == SessionLength
  {
  }

  /** The module-level word list of the service. */
  class WordCache {
    var wordList: seq<string>

    /** The module starts with an empty list. */
    constructor ()
      ensures wordList == []
    {
      wordList := [];
    }

    /** `fetchWordList`: store the fetched list, or the built-in list when the fetch failed. */
    method FetchWordList(outcome: FetchOutcome)
      modifies this
      ensures wordList == (if outcome.Fetched? then outcome.words else FallbackWords)
    {
      match outcome
      case Fetched(words) =>
        wordList := words;
      case FetchFailed =>
        wordList := FallbackWords;
    }

    /**
     * `getWords`: fetch only while the list is empty, then return the first
     * fifty words of a shuffle of the list.
     */
    method GetWords(outcome: FetchOutcome, choices: seq<nat>) returns (words: seq<string>)
      requires ValidChoices(choices, |ResolveWordList(wordList, outcome)|)
      modifies this
      ensures wordList == ResolveWordList(old(wordList), outcome)
      ensures words == SessionWords(wordList, choices)
    {
      if |wordList| == 0 {
        FetchWordList(outcome);
      }
      assert wordList == ResolveWordList(old(wordList), outcome);
      var shuffled := ShuffleArray(wordList, choices);
      ShuffledIsPermutation(wordList, choices);
      words := shuffled[..Min(SessionLength, |shuffled|)];
    }
  }
}
