/**
 * The board's dimensions and alphabet, the four placement directions, the
 * cells a run of letters occupies, and the cells a drag selection visits.
 */
module Geometry {
  import opened Util

  const BOARD_ROWS: int := 16
  const BOARD_COLS: int := 16

  /** The noise alphabet; it does not contain `INIT_CHAR`. */
  const VALID_CHARS: string := "abcdefghijklmnñopqrstuvwxyz"
  /** The sentinel of a cell no word has claimed yet. */
  const INIT_CHAR: char := '.'

  const DIR_HORIZONTAL: char := 'h'
  const DIR_VERTICAL: char := 'v'
  const DIR_DIAGONAL_UP: char := 'u'
  const DIR_DIAGONAL_DOWN: char := 'd'
  /** The string `tryWord` draws its direction code from. */
  const DIRECTION_CODES: string := [DIR_HORIZONTAL, DIR_VERTICAL, DIR_DIAGONAL_UP, DIR_DIAGONAL_DOWN]

  lemma SentinelIsNoise()
    ensures INIT_CHAR !in VALID_CHARS
  {
  }

  datatype Direction = Horizontal | Vertical | DiagonalUp | DiagonalDown

  /** The `switch (dir)` of `putWord`: the direction a code names, if any. */
  function DirectionOf(code: char): (d: Option<Direction>)
    ensures d.Some? <==> code in DIRECTION_CODES
  {
    if code == DIR_HORIZONTAL then Some(Horizontal)
    else if code == DIR_VERTICAL then Some(Vertical)
    else if code == DIR_DIAGONAL_UP then Some(DiagonalUp)
    else if code == DIR_DIAGONAL_DOWN then Some(DiagonalDown)
    else None
  }

  predicate InBoard(r: int, c: int) {
    0 <= r < BOARD_ROWS && 0 <= c < BOARD_COLS
  }

  /** `x` moved `k` times by the unit step `s` (one of -1, 0, 1). */
  function Step(x: int, s: int, k: int): int {
    if s > 0 then x + k else if s < 0 then x - k else x
  }

  /** The unit step of a direction: (0,+1), (+1,0), (-1,+1), (+1,+1). */
  function RowStep(d: Direction): int {
    match d
    case Horizontal => 0
    case Vertical => 1
    case DiagonalUp => -1
    case DiagonalDown => 1
  }

  function ColStep(d: Direction): int {
    match d
    case Horizontal => 1
    case Vertical => 0
    case DiagonalUp => 1
    case DiagonalDown => 1
  }

  /** Row and column of the `i`-th letter of a run that starts at `(row, col)`. */
  function RowAt(d: Direction, row: int, i: int): int {
    Step(row, RowStep(d), i)
  }

  function ColAt(d: Direction, col: int, i: int): int {
    Step(col, ColStep(d), i)
  }

  /**
   * The guards of the four `putWord*` helpers: the start cell is on the board
   * and the run of `len` letters does not leave it (the helpers' extra test
   * `word.length < 0` is never true).
   */
  predicate Fits(d: Direction, len: nat, row: int, col: int): (b: bool)
    ensures b ==> InBoard(row, col) && len <= BOARD_ROWS && len <= BOARD_COLS
  {
    && InBoard(row, col)
    && match d
       case Horizontal => col + len <= BOARD_COLS
       case Vertical => row + len <= BOARD_ROWS
       case DiagonalUp => col + len <= BOARD_COLS && row - (len - 1) >= 0
       case DiagonalDown => col + len <= BOARD_COLS && row + len <= BOARD_ROWS
  }

  /** For a non-empty run, the guards hold exactly when every cell of the run is on the board. */
  lemma FitsIffRunOnBoard(d: Direction, len: nat, row: int, col: int)
    requires len > 0
    ensures Fits(d, len, row, col) <==>
            forall i :: 0 <= i < len ==> InBoard(RowAt(d, row, i), ColAt(d, col, i))
  {
    if forall i :: 0 <= i < len ==> InBoard(RowAt(d, row, i), ColAt(d, col, i)) {
      assert InBoard(RowAt(d, row, 0), ColAt(d, col, 0));
      assert InBoard(RowAt(d, row, len - 1), ColAt(d, col, len - 1));
    }
  }

  /** Index of the letter of the run at `(r, c)`, if the cell is on the run's line. */
  function Offset(d: Direction, row: int, col: int, r: int, c: int): int {
    if d == Vertical then r - row else c - col
  }

  /** Whether the cell `(r, c)` is one of the `len` cells of the run. */
  predicate OnRun(d: Direction, row: int, col: int, len: int, r: int, c: int) {
    var i := Offset(d, row, col, r, c);
    0 <= i < len && r == RowAt(d, row, i) && c == ColAt(d, col, i)
  }

  /** The cells of a run are exactly the `RowAt`/`ColAt` cells of its indices. */
  lemma OnRunIff(d: Direction, row: int, col: int, len: int, r: int, c: int)
    ensures OnRun(d, row, col, len, r, c) <==>
            exists i :: 0 <= i < len && r == RowAt(d, row, i) && c == ColAt(d, col, i)
  {
    if exists i :: 0 <= i < len && r == RowAt(d, row, i) && c == ColAt(d, col, i) {
      var i :| 0 <= i < len && r == RowAt(d, row, i) && c == ColAt(d, col, i);
      assert Offset(d, row, col, r, c) == i;
    }
  }

  // ---------------------------------------------------------------------
  // The selection decoder's walk (`getWordFound`)

  /** Number of steps of the walk: the larger of the two deltas. */
  function Distance(sRow: int, sCol: int, eRow: int, eCol: int): nat {
    Max(Abs(eRow - sRow), Abs(eCol - sCol))
  }

  predicate Between(x: int, a: int, b: int) {
    Min(a, b) <= x <= Max(a, b)
  }

  /**
   * One coordinate of the walk after `k` steps: it moves towards `e` by one
   * cell per step and stays there once it has arrived.
   */
  function Along(s: int, e: int, k: nat): int {
    Step(s, Sign(e - s), Min(k, Abs(e - s)))
  }

  /**
   * The cells `getWordFound` visits, in order: after `k` steps each
   * coordinate has moved `k` cells towards the end cell, or has stopped there.
   */
  function Walk(sRow: int, sCol: int, eRow: int, eCol: int): (w: seq<(int, int)>)
    ensures |w| == Distance(sRow, sCol, eRow, eCol) + 1
  {
    var n := Distance(sRow, sCol, eRow, eCol);
    seq(n + 1, k requires 0 <= k <= n => (Along(sRow, eRow, k), Along(sCol, eCol, k)))
  }

  /** One more step of the loop of `getWordFound` moves the coordinate as `Along` says. */
  lemma AlongNext(s: int, e: int, k: nat)
    ensures Along(s, e, k) + Sign(e - Along(s, e, k)) == Along(s, e, k + 1)
  {
  }

  /** The coordinate has arrived exactly when `k` covers its distance. */
  lemma AlongArrives(s: int, e: int, k: nat)
    ensures Along(s, e, k) == e <==> k >= Abs(e - s)
  {
  }

  lemma AlongBetween(s: int, e: int, k: nat)
    ensures Between(Along(s, e, k), s, e)
  {
  }

  /** The facts the loop of `getWordFound` needs about its `k`-th cell. */
  lemma AlongCell(sRow: int, sCol: int, eRow: int, eCol: int, k: nat)
    requires InBoard(sRow, sCol) && InBoard(eRow, eCol)
    ensures InBoard(Along(sRow, eRow, k), Along(sCol, eCol, k))
    ensures (Along(sRow, eRow, k) == eRow && Along(sCol, eCol, k) == eCol) <==> k >= Distance(sRow, sCol, eRow, eCol)
    ensures Along(sRow, eRow, k) + Sign(eRow - Along(sRow, eRow, k)) == Along(sRow, eRow, k + 1)
    ensures Along(sCol, eCol, k) + Sign(eCol - Along(sCol, eCol, k)) == Along(sCol, eCol, k + 1)
  {
    AlongBetween(sRow, eRow, k);
    AlongBetween(sCol, eCol, k);
    AlongArrives(sRow, eRow, k);
    AlongArrives(sCol, eCol, k);
    AlongNext(sRow, eRow, k);
    AlongNext(sCol, eCol, k);
  }

  /** The walk starts at the start cell and ends at the end cell. */
  lemma WalkEnds(sRow: int, sCol: int, eRow: int, eCol: int)
    ensures var w := Walk(sRow, sCol, eRow, eCol);
            w[0] == (sRow, sCol) && w[|w| - 1] == (eRow, eCol)
  {
    var n := Distance(sRow, sCol, eRow, eCol);
    AlongArrives(sRow, eRow, n);
    AlongArrives(sCol, eCol, n);
  }

  /** Every cell of `path` lies in the rectangle spanned by the two corner cells. */
  predicate InRectangle(path: seq<(int, int)>, sRow: int, sCol: int, eRow: int, eCol: int) {
    forall k {:trigger path[k]} :: 0 <= k < |path| ==> Between(path[k].0, sRow, eRow) && Between(path[k].1, sCol, eCol)
  }

  /** The walk never leaves the rectangle spanned by its start and end cells. */
  lemma WalkInRectangle(sRow: int, sCol: int, eRow: int, eCol: int)
    ensures InRectangle(Walk(sRow, sCol, eRow, eCol), sRow, sCol, eRow, eCol)
  {
    var w := Walk(sRow, sCol, eRow, eCol);
    forall k | 0 <= k < |w| ensures Between(w[k].0, sRow, eRow) && Between(w[k].1, sCol, eCol) {
      AlongBetween(sRow, eRow, k);
      AlongBetween(sCol, eCol, k);
    }
  }

  /** Every cell of `path` is on the board. */
  predicate OnBoard(path: seq<(int, int)>) {
    forall k {:trigger path[k]} :: 0 <= k < |path| ==> InBoard(path[k].0, path[k].1)
  }

  /** Every cell of a walk between two cells of the board is on the board. */
  lemma WalkOnBoard(sRow: int, sCol: int, eRow: int, eCol: int)
    requires InBoard(sRow, sCol) && InBoard(eRow, eCol)
    ensures OnBoard(Walk(sRow, sCol, eRow, eCol))
  {
    WalkInRectangle(sRow, sCol, eRow, eCol);
  }

  /** The run of `n + 1` cells from `(r, c)` along the unit step `(dr, dc)`. */
  function Ray(r: int, c: int, dr: int, dc: int, n: nat): (w: seq<(int, int)>)
    ensures |w| == n + 1
  {
    seq(n + 1, k requires 0 <= k <= n => (Step(r, dr, k), Step(c, dc, k)))
  }

  /** Start and end share a row, a column or a 45-degree diagonal. */
  predicate Aligned(sRow: int, sCol: int, eRow: int, eCol: int) {
    sRow == eRow || sCol == eCol || Abs(eRow - sRow) == Abs(eCol - sCol)
  }

  /** A coordinate that moves either not at all or over the whole distance `n` moves one cell per step. */
  lemma AlongAligned(s: int, e: int, n: nat, k: nat)
    requires Abs(e - s) == 0 || Abs(e - s) == n
    requires k <= n
    ensures Along(s, e, k) == Step(s, Sign(e - s), k)
  {
  }

  /** An aligned selection reads exactly the straight run from start to end. */
  lemma WalkAligned(sRow: int, sCol: int, eRow: int, eCol: int)
    requires Aligned(sRow, sCol, eRow, eCol)
    ensures var n, dr, dc := Distance(sRow, sCol, eRow, eCol), Sign(eRow - sRow), Sign(eCol - sCol);
            Walk(sRow, sCol, eRow, eCol) == Ray(sRow, sCol, dr, dc, n)
  {
    var n, dr, dc := Distance(sRow, sCol, eRow, eCol), Sign(eRow - sRow), Sign(eCol - sCol);
    var w, ray := Walk(sRow, sCol, eRow, eCol), Ray(sRow, sCol, dr, dc, n);
    forall k | 0 <= k <= n ensures w[k] == ray[k] {
      AlongAligned(sRow, eRow, n, k);
      AlongAligned(sCol, eCol, n, k);
    }
  }

  /** The walk along a placed run, from its first letter to its last, visits the run's cells in order. */
  lemma WalkAlongRun(d: Direction, row: int, col: int, len: nat)
    requires len > 0
    ensures var w := Walk(row, col, RowAt(d, row, len - 1), ColAt(d, col, len - 1));
            |w| == len && forall i :: 0 <= i < len ==> w[i] == (RowAt(d, row, i), ColAt(d, col, i))
  {
    var eRow, eCol := RowAt(d, row, len - 1), ColAt(d, col, len - 1);
    var w := Walk(row, col, eRow, eCol);
    assert Distance(row, col, eRow, eCol) == len - 1;
    forall i | 0 <= i < len ensures w[i] == (RowAt(d, row, i), ColAt(d, col, i)) {
      AlongAligned(row, eRow, len - 1, i);
      AlongAligned(col, eCol, len - 1, i);
    }
  }

  /** The walk from the last letter of a run back to its first visits the run's cells in reverse. */
  lemma WalkAlongRunBackward(d: Direction, row: int, col: int, len: nat)
    requires len > 0
    ensures var w := Walk(RowAt(d, row, len - 1), ColAt(d, col, len - 1), row, col);
            |w| == len && forall i :: 0 <= i < len ==> w[i] == (RowAt(d, row, len - 1 - i), ColAt(d, col, len - 1 - i))
  {
    var sRow, sCol := RowAt(d, row, len - 1), ColAt(d, col, len - 1);
    var w := Walk(sRow, sCol, row, col);
    assert Distance(sRow, sCol, row, col) == len - 1;
    forall i | 0 <= i < len ensures w[i] == (RowAt(d, row, len - 1 - i), ColAt(d, col, len - 1 - i)) {
      AlongAligned(sRow, row, len - 1, i);
      AlongAligned(sCol, col, len - 1, i);
    }
  }

  /** A path through the cells of a run that fits, last to first, stays on the board. */
  lemma RunBackwardOnBoard(d: Direction, len: nat, row: int, col: int, w: seq<(int, int)>)
    requires len > 0 && Fits(d, len, row, col) && |w| == len
    requires forall i :: 0 <= i < len ==> w[i] == (RowAt(d, row, len - 1 - i), ColAt(d, col, len - 1 - i))
    ensures OnBoard(w)
  {
    FitsIffRunOnBoard(d, len, row, col);
    forall i | 0 <= i < len ensures InBoard(w[i].0, w[i].1) {
      assert InBoard(RowAt(d, row, len - 1 - i), ColAt(d, col, len - 1 - i));
    }
  }

  // ---------------------------------------------------------------------
  // The drag classification of `mouseMoveListener`

  /** How the outline of a drag is drawn: along the row, along the column, or diagonally at `theta` degrees. */
  datatype Heading = AlongRow | AlongColumn | Diagonal(theta: int)

  /** The integer tests of `mouseMoveListener` on the drag deltas. */
  function Classify(dRows: int, dCols: int): (h: Heading)
    ensures h == AlongRow <==> Abs(dCols) > 2 * Abs(dRows)
    ensures h == AlongColumn <==> Abs(dRows) > 2 * Abs(dCols)
  {
    if Abs(dCols) > 2 * Abs(dRows) then AlongRow
    else if Abs(dRows) > 2 * Abs(dCols) then AlongColumn
    else if dRows > 0 && dCols > 0 then Diagonal(45)
    else if dRows < 0 && dCols < 0 then Diagonal(-135)
    else if dRows > 0 && dCols < 0 then Diagonal(135)
    else if dRows < 0 && dCols > 0 then Diagonal(-45)
    else Diagonal(0)
  }

  /** The four diagonal quadrants, by the signs of the deltas. */
  function QuadrantAngle(dRows: int, dCols: int): int {
    if dRows > 0 then (if dCols > 0 then 45 else 135)
    else (if dCols > 0 then -45 else -135)
  }

  /**
   * A drag that really moved and is neither flat nor steep is a diagonal:
   * both deltas are non-zero and its quadrant follows their signs.
   */
  lemma ClassifyMovedDrag(dRows: int, dCols: int)
    requires dRows != 0 || dCols != 0
    ensures Classify(dRows, dCols).Diagonal? ==>
              dRows != 0 && dCols != 0 && Classify(dRows, dCols).theta == QuadrantAngle(dRows, dCols)
  {
  }

  /** Each of the eight compass drags is classified as its own heading. */
  lemma ClassifyCompass(dRows: int, dCols: int)
    requires dRows != 0 || dCols != 0
    requires Aligned(0, 0, dRows, dCols)
    ensures dRows == 0 ==> Classify(dRows, dCols) == AlongRow
    ensures dCols == 0 ==> Classify(dRows, dCols) == AlongColumn
    ensures dRows != 0 && dCols != 0 ==> Classify(dRows, dCols) == Diagonal(QuadrantAngle(dRows, dCols))
  {
  }

  /** Dragging the opposite way keeps the axis, and turns a diagonal outline by 180 degrees. */
  lemma ClassifyOpposite(dRows: int, dCols: int)
    requires dRows != 0 || dCols != 0
    ensures Classify(dRows, dCols).AlongRow? <==> Classify(-dRows, -dCols).AlongRow?
    ensures Classify(dRows, dCols).AlongColumn? <==> Classify(-dRows, -dCols).AlongColumn?
    ensures Classify(dRows, dCols).Diagonal? ==>
              Classify(-dRows, -dCols).Diagonal? &&
              Abs(Classify(dRows, dCols).theta - Classify(-dRows, -dCols).theta) == 180
  {
  }

  /**
   * The end cell the outline of `mouseMoveListener` is drawn to for the two
   * axial headings: a row outline keeps the drag's column and a column
   * outline its row, so the end shares the start cell's row or column and
   * snapping keeps the heading.
   */
  function SnapEnd(sRow: int, sCol: int, aRow: int, aCol: int): (e: Option<(int, int)>)
    ensures e.Some? <==> !Classify(aRow - sRow, aCol - sCol).Diagonal?
    ensures e.Some? ==> (e.value.0 == sRow || e.value.1 == sCol) && Aligned(sRow, sCol, e.value.0, e.value.1)
    ensures e.Some? ==> Classify(e.value.0 - sRow, e.value.1 - sCol) == Classify(aRow - sRow, aCol - sCol)
    ensures Classify(aRow - sRow, aCol - sCol).AlongRow? ==> e.Some? && e.value.1 == aCol
    ensures Classify(aRow - sRow, aCol - sCol).AlongColumn? ==> e.Some? && e.value.0 == aRow
  {
    match Classify(aRow - sRow, aCol - sCol)
    case AlongRow => Some((sRow, aCol))
    case AlongColumn => Some((aRow, sCol))
    case Diagonal(_) => None
  }

  /**
   * The decoder walks to the raw end cell, not to the snapped one: a drag from
   * (0, 0) to (1, 10) is outlined along row 0, but the second cell it reads is (1, 1).
   */
  lemma RawEndLeavesOutline()
    ensures Classify(1, 10) == AlongRow && SnapEnd(0, 0, 1, 10) == Some((0, 10))
    ensures Walk(0, 0, 1, 10)[1] == (1, 1)
  {
  }
}
