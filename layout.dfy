/**
 * The window of words shown on screen: three lines of twelve words,
 * starting one line above the line of the current word.
 */
module Layout {
  import opened Common

  const WordsPerLine := 12
  const VisibleLines := 3

  /** Index of the first visible word (`startIndex` of `getVisibleWords`). */
  function VisibleStart(index: nat): nat
  {
    Max(0, index / WordsPerLine - 1) * WordsPerLine
  }

  /**
   * `getVisibleWords`: the words from the first visible line up to three
   * lines later, cut at the end of the list (`slice` of a start past the
   * end gives no words).
   */
  function GetVisibleWords(words: seq<string>, index: nat): (r: seq<string>)
    ensures |r| <= WordsPerLine * VisibleLines
    ensures VisibleStart(index) + |r| <= |words| || r == []
    ensures forall k :: 0 <= k < |r| ==> r[k] == words[VisibleStart(index) + k]
    ensures VisibleStart(index) + WordsPerLine * VisibleLines <= |words| ==> |r| == WordsPerLine * VisibleLines
    ensures |r| == if VisibleStart(index) <= |words|
                   then Min(WordsPerLine * VisibleLines, |words| - VisibleStart(index))
                   else 0
  {
    var start := VisibleStart(index);
    var end := Min(|words|, start + WordsPerLine * VisibleLines);
    if start <= end then words[start..end] else []
  }

  /**
   * The current word is always on screen: on the first line of the window
   * while it is on the first line of the text, and on the second line after
   * that, in the same column.
   */
  lemma CurrentWordVisible(words: seq<string>, index: nat)
    requires index < |words|
    ensures VisibleStart(index) <= index < VisibleStart(index) + |GetVisibleWords(words, index)|
    ensures GetVisibleWords(words, index)[index - VisibleStart(index)] == words[index]
    ensures (index - VisibleStart(index)) / WordsPerLine == (if index < WordsPerLine then 0 else 1)
    ensures (index - VisibleStart(index)) % WordsPerLine == index % WordsPerLine
  {
    var line := index / WordsPerLine;
    assert index == line * WordsPerLine + index % WordsPerLine;
    if line == 0 {
      assert VisibleStart(index) == 0;
    } else {
      assert VisibleStart(index) == line * WordsPerLine - WordsPerLine;
      assert index - VisibleStart(index) == WordsPerLine + index % WordsPerLine;
    }
  }
}
