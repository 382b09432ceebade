/**
 * The end of a drag, as `mouseUpListener` handles it: decode the selected
 * cells, cross the word out when it is still on the list, and detect the win.
 */
module Session {
  import opened Text
  import opened Geometry
  import opened Puzzle
  import opened Tracking

  /** The start and end cells of the drag that selects a word laid as `at` says, first letter to last. */
  function DragOver(word: string, at: Placement): (cells: (int, int, int, int))
    requires |word| > 0
  {
    var lastRow, lastCol := RowAt(at.dir, at.row, |word| - 1), ColAt(at.dir, at.col, |word| - 1);
    if at.reverse then (lastRow, lastCol, at.row, at.col) else (at.row, at.col, lastRow, lastCol)
  }

  /**
   * Every word on the board can be selected: dragging from its first letter
   * to its last, whichever way it was laid, decodes exactly the word.
   */
  lemma PlacedWordDecodes(board: Board, word: string, at: Placement)
    requires board.Valid() && board.Shows(word, at) && |word| > 0
    ensures var (sRow, sCol, eRow, eCol) := DragOver(word, at);
            OnBoard(Walk(sRow, sCol, eRow, eCol)) && board.Letters(Walk(sRow, sCol, eRow, eCol)) == word
  {
    if at.reverse {
      board.SelectPlacedWordBackward(Reverse(word), at.row, at.col, at.dir);
      ReverseReverse(word);
    } else {
      board.SelectPlacedWord(word, at.row, at.col, at.dir);
    }
  }

  /** A word on the board that is still on the list is found by the drag over it. */
  lemma PlacedWordIsFound(board: Board, entries: seq<Entry>, word: string, at: Placement, j: nat)
    requires board.Valid() && board.Shows(word, at) && |word| > 0
    requires j < |entries| && Matches(entries[j], word)
    ensures var (sRow, sCol, eRow, eCol) := DragOver(word, at);
            OnBoard(Walk(sRow, sCol, eRow, eCol))
            && FirstUnfound(entries, board.Letters(Walk(sRow, sCol, eRow, eCol))).Some?
  {
    PlacedWordDecodes(board, word, at);
  }

  /**
   * `mouseUpListener` on the board cells of the drag: decode the word, and
   * when `checkWordNotFound` finds it, cross it out with `markWordAsFound`
   * and report the win when `countWordsNotFound` reaches zero.
   */
  method SubmitSelection(board: Board, list: WordList, sRow: int, sCol: int, eRow: int, eCol: int)
    returns (word: string, marked: bool, won: bool)
    requires board.Valid() && InBoard(sRow, sCol) && InBoard(eRow, eCol)
    modifies list
    ensures OnBoard(Walk(sRow, sCol, eRow, eCol)) && word == board.Letters(Walk(sRow, sCol, eRow, eCol))
    ensures marked == old(FirstUnfound(list.entries, word)).Some?
    ensures marked ==> list.entries == Flip(old(list.entries), old(FirstUnfound(list.entries, word)).value)
    ensures !marked ==> list.entries == old(list.entries)
    ensures marked ==> UnfoundCount(list.entries) == old(UnfoundCount(list.entries)) - 1
    ensures won <==> marked && Won(list.entries)
  {
    word := board.GetWordFound(sRow, sCol, eRow, eCol);
    marked, won := false, false;
    if FirstUnfound(list.entries, word).Some? {
      marked := list.MarkWordAsFound(word);
      won := UnfoundCount(list.entries) == 0;
    }
  }
}
