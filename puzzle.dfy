/**
 * The virtual board `gBoard` and the operations of the placement engine and
 * the selection decoder that read or write it.
 */
module Puzzle {
  import opened Util
  import opened Text
  import opened Geometry

  /** A value returned by `Math.random()`. */
  type Random = x: real | 0.0 <= x < 1.0

  lemma ScaledBelow(n: nat, x: Random)
    requires n > 0
    ensures 0 <= (n as real * x).Floor < n
  {
    assert n as real * x < n as real;
  }

  /** `pickRandomChar`: the character of `chars` at index `floor(|chars| * x)`. */
  function PickRandomChar(chars: string, x: Random): (c: char)
    requires |chars| > 0
    ensures c in chars
  {
    ScaledBelow(|chars|, x);
    chars[(|chars| as real * x).Floor]
  }

  /** `Math.floor(lo + x * (hi - lo + 1))`, the start-cell draw of `tryWord`; when the range is not empty it lands in it, both ends included. */
  function Scale(lo: int, hi: int, x: Random): (v: int)
    ensures lo <= hi ==> lo <= v <= hi
  {
    var v := (lo as real + x * (hi - lo + 1) as real).Floor;
    if lo <= hi then
      ScaledBelow(hi - lo + 1, x);
      assert x * (hi - lo + 1) as real == (hi - lo + 1) as real * x;
      v
    else v
  }

  /** The four `Math.random()` values one call of `tryWord` consumes, in the order it draws them. */
  datatype Draw = Draw(dir: Random, reverse: Random, row: Random, col: Random)

  /** A candidate placement: direction code, reversal and start cell. */
  datatype Proposal = Proposal(dir: char, reverse: bool, row: int, col: int)

  /**
   * The candidate `tryWord` proposes for a word of length `len`. The ranges
   * are taken as written. Every column range, and the row ranges of `'h'`,
   * `'v'` and `'d'`, reach past the last start that fits: the column
   * `BOARD_COLS + 1 - len` for `'h'`, `'u'` and `'d'` (`BOARD_COLS` for
   * `'v'`), the row `BOARD_ROWS + 1 - len` for `'v'` and `'d'` (`BOARD_ROWS`
   * for `'h'`); the guards of the helpers reject such starts. The row range
   * `[len - 1, BOARD_ROWS + 1 - len]` of `'u'` overshoots only for words of
   * at most one letter, leaves out the bottom rows that fit for three to nine
   * letters, and is inverted from ten letters on.
   */
  function Propose(len: nat, draw: Draw): (p: Proposal)
    ensures DirectionOf(p.dir).Some?
  {
    var dir := PickRandomChar(DIRECTION_CODES, draw.dir);
    var minCol := 0;
    var maxCol := if dir == DIR_VERTICAL then BOARD_COLS else BOARD_COLS - (len - 1);
    var minRow := if dir == DIR_DIAGONAL_UP then len - 1 else 0;
    var maxRow := if dir == DIR_HORIZONTAL then BOARD_ROWS else BOARD_ROWS - (len - 1);
    Proposal(dir, draw.reverse > 0.5, Scale(minRow, maxRow, draw.row), Scale(minCol, maxCol, draw.col))
  }

  /**
   * Draws whose proposals fail the guards: the column `BOARD_COLS` for a
   * vertical one-letter word, and the column `BOARD_COLS + 1` for an empty
   * word laid horizontally.
   */
  lemma ProposalMayLeaveBoard()
    ensures Propose(1, Draw(0.3, 0.0, 0.0, 0.99)) == Proposal(DIR_VERTICAL, false, 0, BOARD_COLS)
    ensures !Fits(Vertical, 1, 0, BOARD_COLS)
    ensures Propose(0, Draw(0.0, 0.0, 0.0, 0.99)) == Proposal(DIR_HORIZONTAL, false, 0, BOARD_COLS + 1)
    ensures !Fits(Horizontal, 0, 0, BOARD_COLS + 1)
  {
    assert (4.0 * 0.3).Floor == 1;
    assert (0.0 + 0.99 * 17.0).Floor == 16;
    assert (4.0 * 0.0).Floor == 0;
    assert (0.0 + 0.99 * 18.0).Floor == 17;
  }

  /** The string actually written: `word`, reversed first when `reverse` is set; it has the word's length and characters. */
  function Laid(word: string, reverse: bool): (w: string)
    ensures |w| == |word|
    ensures forall ch :: ch in w <==> ch in word
  {
    if reverse then ReverseMembers(word); Reverse(word) else word
  }

  /** What `fillBoard` leaves in a cell: a noise letter drawn by `x` in place of the sentinel, else the cell as it was. */
  function FillCell(cell: char, x: Random): (ch: char)
    ensures cell == INIT_CHAR ==> ch in VALID_CHARS
    ensures cell != INIT_CHAR ==> ch == cell
  {
    if cell == INIT_CHAR then PickRandomChar(VALID_CHARS, x) else cell
  }

  /**
   * For `'u'` and a word of three to nine letters, the proposed row never
   * passes `BOARD_ROWS + 1 - len`, although the word also fits upward from
   * every lower row of the board.
   */
  lemma UpwardRangeStopsShort(len: nat, draw: Draw)
    requires 3 <= len <= 9 && Propose(len, draw).dir == DIR_DIAGONAL_UP
    ensures len - 1 <= Propose(len, draw).row <= BOARD_ROWS + 1 - len
    ensures forall row :: BOARD_ROWS + 1 - len < row < BOARD_ROWS ==> Fits(DiagonalUp, len, row, 0)
  {
  }

  /**
   * For `'u'` and a word of ten letters or more, the row range of `tryWord`
   * is inverted: every draw above zero gives a row above which the word
   * does not fit, so the upward helper rejects it.
   */
  lemma LongUpwardRejected(len: nat, x: Random, col: int)
    requires 10 <= len && x > 0.0
    ensures Scale(len - 1, BOARD_ROWS - (len - 1), x) < len - 1
    ensures !Fits(DiagonalUp, len, Scale(len - 1, BOARD_ROWS - (len - 1), x), col)
  {
    var span := (BOARD_ROWS - (len - 1) - (len - 1) + 1) as real;
    assert span < 0.0;
    assert x * span < 0.0;
  }

  /** Where a word was laid: its start cell, direction and reversal. */
  datatype Placement = Placement(row: int, col: int, dir: Direction, reverse: bool)

  /** The placement a draw proposes for a word of length `len`. */
  function Proposed(len: nat, draw: Draw): Placement {
    var p := Propose(len, draw);
    Placement(p.row, p.col, DirectionOf(p.dir).value, p.reverse)
  }

  /** A cell may take the letter `ch` when it is still the sentinel or already holds `ch`. */
  predicate CellAccepts(cell: char, ch: char) {
    cell == INIT_CHAR || cell == ch
  }

  /** A snapshot of the board: the character of each cell. */
  type Grid = map<(int, int), char>

  /** In the snapshot `g`, the run fits and each of its cells accepts the corresponding letter. */
  ghost predicate PlaceableIn(g: Grid, word: string, row: int, col: int, d: Direction) {
    && Fits(d, |word|, row, col)
    && forall i :: 0 <= i < |word| ==>
         (RowAt(d, row, i), ColAt(d, col, i)) in g && CellAccepts(g[(RowAt(d, row, i), ColAt(d, col, i))], word[i])
  }

  /** In the snapshot `g`, the candidate a draw proposes for `word` would be placed. */
  ghost predicate AcceptedIn(g: Grid, word: string, draw: Draw) {
    var p := Propose(|word|, draw);
    PlaceableIn(g, Laid(word, p.reverse), p.row, p.col, DirectionOf(p.dir).value)
  }

  /**
   * The snapshot `g` after `word` is laid as `at` says: each cell of the run
   * holds its letter of the laid string, and every other cell is kept.
   */
  ghost function Commit(g: Grid, word: string, at: Placement): Grid {
    var w := Laid(word, at.reverse);
    map cell | cell in g ::
      if OnRun(at.dir, at.row, at.col, |w|, cell.0, cell.1) then w[Offset(at.dir, at.row, at.col, cell.0, cell.1)] else g[cell]
  }

  class Board {
    /** `gBoard`, indexed `[row, col]`. */
    const cells: array2<char>

    predicate Valid() {
      cells.Length0 == BOARD_ROWS && cells.Length1 == BOARD_COLS
    }

    /** `initBoard`: a fresh board whose every cell is the sentinel. */
    constructor ()
      ensures Valid() && fresh(cells)
      ensures forall r, c :: InBoard(r, c) ==> cells[r, c] == INIT_CHAR
    {
      var a := new char[BOARD_ROWS, BOARD_COLS];
      for i := 0 to BOARD_ROWS
        invariant forall r, c :: 0 <= r < i && 0 <= c < BOARD_COLS ==> a[r, c] == INIT_CHAR
      {
        for j := 0 to BOARD_COLS
          invariant forall r, c :: 0 <= r < i && 0 <= c < BOARD_COLS ==> a[r, c] == INIT_CHAR
          invariant forall c :: 0 <= c < j ==> a[i, c] == INIT_CHAR
        {
          a[i, j] := INIT_CHAR;
        }
      }
      cells := a;
    }

    /** The letters on the board now, as a value that later writes do not change. */
    ghost function Contents(): (g: Grid)
      requires Valid()
      reads cells
    {
      map r, c | 0 <= r < BOARD_ROWS && 0 <= c < BOARD_COLS :: (r, c) := cells[r, c]
    }

    /** The snapshot holds every cell of the board with its current character. */
    lemma ContentsCells()
      requires Valid()
      ensures forall r, c :: InBoard(r, c) ==> (r, c) in Contents() && Contents()[(r, c)] == cells[r, c]
    {
    }

    /** The snapshot holds the cells of the board and nothing else. */
    lemma ContentsKeys()
      requires Valid()
      ensures forall cell :: cell in Contents() <==> InBoard(cell.0, cell.1)
    {
    }

    /**
     * When the board reads `word` laid as `at` says and agrees with the
     * snapshot `before` off that run, its snapshot is `before` with the word
     * committed there.
     */
    lemma ContentsCommitted(before: Grid, word: string, at: Placement)
      requires Valid() && Spells(Laid(word, at.reverse), at.row, at.col, at.dir)
      requires forall cell :: cell in before <==> InBoard(cell.0, cell.1)
      requires forall r, c :: InBoard(r, c) && !OnRun(at.dir, at.row, at.col, |word|, r, c) ==> cells[r, c] == before[(r, c)]
      ensures Contents() == Commit(before, word, at)
    {
      var w := Laid(word, at.reverse);
      var after, laid := Contents(), Commit(before, word, at);
      ContentsCells();
      ContentsKeys();
      forall cell | cell in before ensures cell in after && after[cell] == laid[cell] {
        if OnRun(at.dir, at.row, at.col, |w|, cell.0, cell.1) {
          assert cells[cell.0, cell.1] == w[Offset(at.dir, at.row, at.col, cell.0, cell.1)];
        }
      }
    }

    /** The run fits and each of its cells accepts the corresponding letter. */
    ghost predicate Placeable(word: string, row: int, col: int, d: Direction)
      requires Valid()
      reads cells
    {
      PlaceableIn(Contents(), word, row, col, d)
    }

    /** Read on the array itself: the run fits and each of its cells accepts the corresponding letter. */
    lemma PlaceableCells(word: string, row: int, col: int, d: Direction)
      requires Valid()
      ensures Placeable(word, row, col, d) <==>
              Fits(d, |word|, row, col) &&
              forall i :: 0 <= i < |word| ==> CellAccepts(cells[RowAt(d, row, i), ColAt(d, col, i)], word[i])
    {
      ContentsCells();
    }

    /** The run fits and reads `word`, letter by letter from its start cell. */
    predicate Spells(word: string, row: int, col: int, d: Direction)
      requires Valid()
      reads cells
    {
      && Fits(d, |word|, row, col)
      && forall i :: 0 <= i < |word| ==> cells[RowAt(d, row, i), ColAt(d, col, i)] == word[i]
    }

    /** The central invariant: a cell that held a letter still holds that letter. */
    twostate predicate KeepsLetters()
      requires Valid()
      reads cells
    {
      forall r, c :: InBoard(r, c) && old(cells[r, c]) != INIT_CHAR ==> cells[r, c] == old(cells[r, c])
    }

    /** The word laid as `at` says reads on the board. */
    predicate Shows(word: string, at: Placement)
      requires Valid()
      reads cells
    {
      Spells(Laid(word, at.reverse), at.row, at.col, at.dir)
    }

    /**
     * The outcome of one placement attempt of `word` at `(row, col)` in the
     * direction `dir` (`None` for an unknown direction code): it succeeds
     * exactly when the direction is known and the run was placeable; then the
     * run reads `word` and no cell off the run changed; otherwise nothing changed.
     */
    twostate predicate Committed(word: string, row: int, col: int, dir: Option<Direction>, ok: bool)
      requires Valid()
      reads cells
    {
      && ok == (dir.Some? && old(Placeable(word, row, col, dir.value)))
      && (ok ==> Spells(word, row, col, dir.value))
      && (ok ==> forall r, c :: InBoard(r, c) && !OnRun(dir.value, row, col, |word|, r, c) ==>
                   cells[r, c] == old(cells[r, c]))
      && (!ok ==> unchanged(cells))
    }

    /** The conflict check loop of a helper: every cell of the run accepts its letter. */
    method RunAccepts(word: string, row: int, col: int, d: Direction) returns (clear: bool)
      requires Valid() && Fits(d, |word|, row, col)
      ensures clear <==> Placeable(word, row, col, d)
    {
      for i := 0 to |word|
        invariant forall j :: 0 <= j < i ==> CellAccepts(cells[RowAt(d, row, j), ColAt(d, col, j)], word[j])
      {
        var r, c := RowAt(d, row, i), ColAt(d, col, i);
        if cells[r, c] != INIT_CHAR && cells[r, c] != word[i] {
          PlaceableCells(word, row, col, d);
          return false;
        }
      }
      PlaceableCells(word, row, col, d);
      return true;
    }

    /** The commit loop of a helper: the run reads `word` and no cell off the run changes. */
    method WriteRun(word: string, row: int, col: int, d: Direction)
      requires Valid() && Fits(d, |word|, row, col)
      modifies cells
      ensures Spells(word, row, col, d)
      ensures forall r, c :: InBoard(r, c) && !OnRun(d, row, col, |word|, r, c) ==> cells[r, c] == old(cells[r, c])
    {
      for i := 0 to |word|
        invariant forall j :: 0 <= j < i ==> cells[RowAt(d, row, j), ColAt(d, col, j)] == word[j]
        invariant forall r, c :: InBoard(r, c) && !OnRun(d, row, col, i, r, c) ==> cells[r, c] == old(cells[r, c])
      {
        cells[RowAt(d, row, i), ColAt(d, col, i)] := word[i];
      }
    }

    /**
     * The four helpers `putWordHorizontal`, `putWordVertical`,
     * `putWordDiagonalUp` and `putWordDiagonalDown`: the bounds guards, the
     * conflict check loop, then the commit loop.
     */
    method PutRun(word: string, row: int, col: int, d: Direction) returns (ok: bool)
      requires Valid()
      modifies cells
      ensures Committed(word, row, col, Some(d), ok)
      ensures KeepsLetters()
    {
      if !Fits(d, |word|, row, col) {
        return false;
      }
      ok := RunAccepts(word, row, col, d);
      if !ok {
        return;
      }
      PlaceableCells(word, row, col, d);
      WriteRun(word, row, col, d);
      forall r, c | InBoard(r, c) && old(cells[r, c]) != INIT_CHAR ensures cells[r, c] == old(cells[r, c]) {
        if OnRun(d, row, col, |word|, r, c) {
          var i := Offset(d, row, col, r, c);
          assert CellAccepts(old(cells[RowAt(d, row, i), ColAt(d, col, i)]), word[i]);
        }
      }
    }

    /** `putWord`: reverse the word if asked, then dispatch on the direction code. */
    method PutWord(word: string, row: int, col: int, dir: char, reverse: bool) returns (ok: bool)
      requires Valid()
      modifies cells
      ensures Committed(Laid(word, reverse), row, col, DirectionOf(dir), ok)
      ensures KeepsLetters()
    {
      var w := if reverse then Reverse(word) else word;
      match DirectionOf(dir)
      case Some(d) =>
        ok := PutRun(w, row, col, d);
      case None =>
        ok := false;
    }

    /** Whether the candidate a draw proposes for `word` would be placed on the current board. */
    ghost predicate Accepted(word: string, draw: Draw)
      requires Valid()
      reads cells
    {
      AcceptedIn(Contents(), word, draw)
    }

    /** `tryWord`: propose a candidate from the draw and try to put the word there. */
    method TryWord(word: string, draw: Draw) returns (ok: bool)
      requires Valid()
      modifies cells
      ensures var p := Propose(|word|, draw);
              Committed(Laid(word, p.reverse), p.row, p.col, DirectionOf(p.dir), ok)
      ensures ok == old(Accepted(word, draw))
      ensures KeepsLetters()
    {
      var p := Propose(|word|, draw);
      ok := PutWord(word, p.row, p.col, p.dir, p.reverse);
    }

    /** No draw places a word longer than both sides of the board. */
    lemma TooLongNeverAccepted(word: string, draws: seq<Draw>)
      requires Valid() && |word| > BOARD_ROWS && |word| > BOARD_COLS
      ensures forall j :: 0 <= j < |draws| ==> !Accepted(word, draws[j])
    {
      forall j | 0 <= j < |draws| ensures !Accepted(word, draws[j]) {
        var p := Propose(|word|, draws[j]);
        assert !Fits(DirectionOf(p.dir).value, |Laid(word, p.reverse)|, p.row, p.col);
      }
    }

    /**
     * `forceWord`: up to `times` attempts, the `k`-th with `draws[k]`, stopping
     * at the first success. `tries` is the number of failed attempts.
     */
    method ForceWord(word: string, times: int, draws: seq<Draw>) returns (ok: bool, ghost tries: nat)
      requires Valid()
      requires times <= |draws|
      modifies cells
      ensures times <= 0 ==> !ok
      ensures |word| > BOARD_ROWS && |word| > BOARD_COLS ==> !ok
      ensures ok <==> exists k :: 0 <= k < times && old(Accepted(word, draws[k]))
      ensures tries <= |draws|
      ensures ok ==> tries < times && old(Accepted(word, draws[tries]))
      ensures !ok ==> tries == Max(times, 0)
      ensures forall j :: 0 <= j < tries ==> !old(Accepted(word, draws[j]))
      ensures ok ==> var p := Propose(|word|, draws[tries]);
                     Committed(Laid(word, p.reverse), p.row, p.col, DirectionOf(p.dir), ok)
      ensures !ok ==> unchanged(cells)
      ensures KeepsLetters()
    {
      var left := times;
      var k := 0;
      while left > 0
        invariant 0 <= k <= Max(times, 0) && left == times - k
        invariant unchanged(cells)
        invariant forall j :: 0 <= j < k ==> !old(Accepted(word, draws[j]))
      {
        ok := TryWord(word, draws[k]);
        if ok {
          tries := k;
          return;
        }
        left := left - 1;
        k := k + 1;
      }
      ok, tries := false, k;
    }

    /** Every cell holds a letter: no sentinel is left. */
    ghost predicate Filled()
      requires Valid()
      reads cells
    {
      forall r, c :: InBoard(r, c) ==> cells[r, c] != INIT_CHAR
    }

    /** `fillBoard`: every sentinel cell `(r, c)` gets the noise letter drawn by `noise(r, c)`. */
    method FillBoard(noise: (int, int) -> Random)
      requires Valid()
      modifies cells
      ensures forall r, c :: InBoard(r, c) ==> cells[r, c] == FillCell(old(cells[r, c]), noise(r, c))
      ensures forall r, c :: InBoard(r, c) && old(cells[r, c]) == INIT_CHAR ==> cells[r, c] in VALID_CHARS
      ensures Filled()
      ensures KeepsLetters()
    {
      for i := 0 to BOARD_ROWS
        invariant forall r, c :: InBoard(r, c) ==>
                    cells[r, c] == if r < i then FillCell(old(cells[r, c]), noise(r, c)) else old(cells[r, c])
      {
        for j := 0 to BOARD_COLS
          invariant forall r, c :: InBoard(r, c) && r != i ==>
                      cells[r, c] == if r < i then FillCell(old(cells[r, c]), noise(r, c)) else old(cells[r, c])
          invariant forall c :: 0 <= c < BOARD_COLS ==>
                      cells[i, c] == if c < j then FillCell(old(cells[i, c]), noise(i, c)) else old(cells[i, c])
        {
          if cells[i, j] == INIT_CHAR {
            cells[i, j] := PickRandomChar(VALID_CHARS, noise(i, j));
          }
        }
      }
      SentinelIsNoise();
    }

    /** The letters on the cells of `path`, in order. */
    ghost function Letters(path: seq<(int, int)>): (s: string)
      requires Valid()
      requires OnBoard(path)
      reads cells
      ensures |s| == |path|
      ensures forall k :: 0 <= k < |path| ==> s[k] == cells[path[k].0, path[k].1]
    {
      if path == [] then [] else [cells[path[0].0, path[0].1]] + Letters(path[1..])
    }

    /** The letters collected cell by cell along the closed form of the walk are the letters of the walk. */
    lemma DecodedIsWalk(word: string, sRow: int, sCol: int, eRow: int, eCol: int)
      requires Valid() && InBoard(sRow, sCol) && InBoard(eRow, eCol)
      requires |word| == Distance(sRow, sCol, eRow, eCol) + 1
      requires forall k :: 0 <= k < |word| ==> word[k] == cells[Along(sRow, eRow, k), Along(sCol, eCol, k)]
      ensures OnBoard(Walk(sRow, sCol, eRow, eCol)) && word == Letters(Walk(sRow, sCol, eRow, eCol))
    {
      var whole := Walk(sRow, sCol, eRow, eCol);
      WalkOnBoard(sRow, sCol, eRow, eCol);
      var s := Letters(whole);
      forall k | 0 <= k < |whole| ensures word[k] == s[k] {
        assert whole[k] == (Along(sRow, eRow, k), Along(sCol, eCol, k));
      }
    }

    /**
     * `getWordFound`: from the start cell, collect the letter under the
     * cursor and step by the signs of the remaining deltas until the end cell.
     */
    method GetWordFound(sRow: int, sCol: int, eRow: int, eCol: int) returns (word: string)
      requires Valid() && InBoard(sRow, sCol) && InBoard(eRow, eCol)
      ensures OnBoard(Walk(sRow, sCol, eRow, eCol)) && word == Letters(Walk(sRow, sCol, eRow, eCol))
    {
      var r, c := sRow, sCol;
      word := "";
      ghost var n: nat := 0;
      while true
        invariant n <= Distance(sRow, sCol, eRow, eCol) && |word| == n
        invariant r == Along(sRow, eRow, n) && c == Along(sCol, eCol, n)
        invariant forall k :: 0 <= k < n ==> word[k] == cells[Along(sRow, eRow, k), Along(sCol, eCol, k)]
        decreases Distance(sRow, sCol, eRow, eCol) - n
      {
        AlongCell(sRow, sCol, eRow, eCol, n);
        word := word + [cells[r, c]];
        if c == eCol && r == eRow {
          break;
        }
        r, c, n := r + Sign(eRow - r), c + Sign(eCol - c), n + 1;
      }
      DecodedIsWalk(word, sRow, sCol, eRow, eCol);
    }

    /** A path through the cells of a placed run, first to last, reads the word. */
    lemma RunLetters(word: string, row: int, col: int, d: Direction, w: seq<(int, int)>)
      requires Valid() && Spells(word, row, col, d) && |word| > 0
      requires |w| == |word| && forall i :: 0 <= i < |w| ==> w[i] == (RowAt(d, row, i), ColAt(d, col, i))
      ensures OnBoard(w) && Letters(w) == word
    {
      FitsIffRunOnBoard(d, |word|, row, col);
      var s := Letters(w);
      forall i | 0 <= i < |w| ensures s[i] == word[i] {
        assert s[i] == cells[w[i].0, w[i].1];
      }
    }

    /** A path through the cells of a placed run, last to first, reads the reversed word. */
    lemma RunLettersBackward(word: string, row: int, col: int, d: Direction, w: seq<(int, int)>)
      requires Valid() && Spells(word, row, col, d) && |word| > 0
      requires |w| == |word|
      requires forall i :: 0 <= i < |w| ==> w[i] == (RowAt(d, row, |w| - 1 - i), ColAt(d, col, |w| - 1 - i))
      ensures OnBoard(w) && Letters(w) == Reverse(word)
    {
      var n := |word|;
      RunBackwardOnBoard(d, n, row, col, w);
      var s := Letters(w);
      forall i | 0 <= i < n ensures s[i] == word[n - 1 - i] {
        assert s[i] == cells[w[i].0, w[i].1];
      }
      ReverseIs(word, s);
    }

    /** Dragging from the first letter of a placed word to its last decodes the word. */
    lemma SelectPlacedWord(word: string, row: int, col: int, d: Direction)
      requires Valid() && Spells(word, row, col, d) && |word| > 0
      ensures var w := Walk(row, col, RowAt(d, row, |word| - 1), ColAt(d, col, |word| - 1));
              OnBoard(w) && Letters(w) == word
    {
      WalkAlongRun(d, row, col, |word|);
      RunLetters(word, row, col, d, Walk(row, col, RowAt(d, row, |word| - 1), ColAt(d, col, |word| - 1)));
    }

    /** Dragging from the last letter of a placed word to its first decodes the reversed word. */
    lemma SelectPlacedWordBackward(word: string, row: int, col: int, d: Direction)
      requires Valid() && Spells(word, row, col, d) && |word| > 0
      ensures var w := Walk(RowAt(d, row, |word| - 1), ColAt(d, col, |word| - 1), row, col);
              OnBoard(w) && Letters(w) == Reverse(word)
    {
      WalkAlongRunBackward(d, row, col, |word|);
      RunLettersBackward(word, row, col, d, Walk(RowAt(d, row, |word| - 1), ColAt(d, col, |word| - 1), row, col));
    }
  }
}
