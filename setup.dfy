/**
 * The set-up pipeline of `initGame`: clean the words, sort them longest
 * first, force each onto the board, fill the board, and keep the placed
 * words in their original order.
 */
module Setup {
  import opened Text
  import opened Geometry
  import opened Puzzle

  /** One record of the map built by `initGame`. */
  datatype Item = Item(index: nat, word: string, clean: string, inBoard: bool)

  /** The `map` of `initGame`: one record per word, with its position and cleaned form, none placed yet. */
  function MakeItems(words: seq<string>): (items: seq<Item>)
    ensures |items| == |words|
    ensures forall k :: 0 <= k < |words| ==> items[k] == Item(k, words[k], CleanWord(words[k]), false)
  {
    seq(|words|, k requires 0 <= k < |words| => Item(k, words[k], CleanWord(words[k]), false))
  }

  /** The two comparators of `initGame`. */
  datatype Order = ByLengthDesc | ByIndex

  /** The sort key of each comparator: smaller keys sort first. */
  function Key(o: Order, it: Item): int {
    match o
    case ByLengthDesc => -|it.clean|
    case ByIndex => it.index
  }

  /** `a` comes before `b` in a stable sort of input in index order: smaller key, or equal key and smaller index. */
  predicate Before(o: Order, a: Item, b: Item) {
    Key(o, a) < Key(o, b) || (Key(o, a) == Key(o, b) && a.index < b.index)
  }

  /** Sorted by key, and among equal keys by ascending index: the order a stable sort gives. */
  predicate StablySorted(s: seq<Item>, o: Order) {
    forall i, j :: 0 <= i < j < |s| ==> Before(o, s[i], s[j])
  }

  predicate IndicesAscending(s: seq<Item>) {
    forall i, j :: 0 <= i < j < |s| ==> s[i].index < s[j].index
  }

  /** Insert `x` before the first element whose key is not smaller than its own. */
  function Insert(x: Item, s: seq<Item>, o: Order): (r: seq<Item>)
    ensures |r| == |s| + 1
  {
    if s == [] || Key(o, x) <= Key(o, s[0]) then [x] + s
    else [s[0]] + Insert(x, s[1..], o)
  }

  /**
   * `Array.prototype.sort` with the comparator `Key(o, a) - Key(o, b)`. The
   * sort is stable, so it is modelled by an insertion sort that keeps equal
   * keys in input order.
   */
  function SortBy(s: seq<Item>, o: Order): (r: seq<Item>)
    ensures |r| == |s|
  {
    if s == [] then [] else Insert(s[0], SortBy(s[1..], o), o)
  }

  lemma {:induction false} InsertPermutes(x: Item, s: seq<Item>, o: Order)
    ensures multiset(Insert(x, s, o)) == multiset([x] + s)
  {
    if !(s == [] || Key(o, x) <= Key(o, s[0])) {
      InsertPermutes(x, s[1..], o);
      assert s == [s[0]] + s[1..];
    }
  }

  lemma ConsStable(x: Item, t: seq<Item>, o: Order)
    requires StablySorted(t, o)
    requires forall k :: 0 <= k < |t| ==> Before(o, x, t[k])
    ensures StablySorted([x] + t, o)
  {
    var r := [x] + t;
    forall i, j | 0 <= i < j < |r| ensures Before(o, r[i], r[j]) {
      assert r[j] == t[j - 1];
      if i > 0 {
        assert r[i] == t[i - 1];
      }
    }
  }

  lemma {:induction false} InsertStable(x: Item, s: seq<Item>, o: Order)
    requires StablySorted(s, o)
    requires forall k :: 0 <= k < |s| ==> x.index < s[k].index
    ensures StablySorted(Insert(x, s, o), o)
  {
    if s == [] || Key(o, x) <= Key(o, s[0]) {
      forall k | 0 <= k < |s| ensures Before(o, x, s[k]) {
        assert k == 0 || Before(o, s[0], s[k]);
      }
      ConsStable(x, s, o);
    } else {
      InsertStable(x, s[1..], o);
      InsertPermutes(x, s[1..], o);
      var t := Insert(x, s[1..], o);
      forall k | 0 <= k < |t| ensures Before(o, s[0], t[k]) {
        assert t[k] in multiset([x] + s[1..]);
        assert t[k] == x || t[k] in s[1..];
      }
      ConsStable(s[0], t, o);
    }
  }

  /** The sort returns a permutation of its input. */
  lemma {:induction false} SortPermutes(s: seq<Item>, o: Order)
    ensures multiset(SortBy(s, o)) == multiset(s)
  {
    if s != [] {
      SortPermutes(s[1..], o);
      InsertPermutes(s[0], SortBy(s[1..], o), o);
      assert s == [s[0]] + s[1..];
    }
  }

  /**
   * On input in ascending index order the sort is ordered by key, and by
   * index among equal keys.
   */
  lemma {:induction false} SortStable(s: seq<Item>, o: Order)
    requires IndicesAscending(s)
    ensures StablySorted(SortBy(s, o), o)
  {
    if s != [] {
      SortStable(s[1..], o);
      SortPermutes(s[1..], o);
      var t := SortBy(s[1..], o);
      forall k | 0 <= k < |t| ensures s[0].index < t[k].index {
        assert t[k] in multiset(s[1..]);
      }
      InsertStable(s[0], t, o);
    }
  }

  /** `map.filter(item => item.inBoard)`. */
  function Placed(items: seq<Item>): (r: seq<Item>)
    ensures |r| <= |items|
  {
    if items == [] then []
    else (if items[0].inBoard then [items[0]] else []) + Placed(items[1..])
  }

  /** The filter keeps exactly the placed items. */
  lemma {:induction false} PlacedMembers(items: seq<Item>)
    ensures forall it :: it in Placed(items) <==> it in items && it.inBoard
  {
    if items != [] {
      PlacedMembers(items[1..]);
      assert items == [items[0]] + items[1..];
    }
  }

  /** No two records share an index. */
  predicate DistinctIndices(s: seq<Item>) {
    forall i, j :: 0 <= i < j < |s| ==> s[i].index != s[j].index
  }

  lemma {:induction false} PlacedDistinct(items: seq<Item>)
    requires DistinctIndices(items)
    ensures DistinctIndices(Placed(items))
  {
    if items != [] {
      PlacedDistinct(items[1..]);
      PlacedMembers(items[1..]);
      var t := Placed(items[1..]);
      forall k | 0 <= k < |t| ensures items[0].index != t[k].index {
        assert t[k] in items[1..];
      }
    }
  }

  lemma ConsAscending(x: Item, t: seq<Item>)
    requires IndicesAscending(t)
    requires forall k :: 0 <= k < |t| ==> x.index < t[k].index
    ensures IndicesAscending([x] + t)
  {
    var r := [x] + t;
    forall i, j | 0 <= i < j < |r| ensures r[i].index < r[j].index {
      assert r[j] == t[j - 1];
      if i > 0 {
        assert r[i] == t[i - 1];
      }
    }
  }

  lemma {:induction false} InsertByIndex(x: Item, s: seq<Item>)
    requires IndicesAscending(s)
    requires forall k :: 0 <= k < |s| ==> x.index != s[k].index
    ensures IndicesAscending(Insert(x, s, ByIndex))
  {
    if s == [] || x.index <= s[0].index {
      ConsAscending(x, s);
    } else {
      InsertByIndex(x, s[1..]);
      InsertPermutes(x, s[1..], ByIndex);
      var t := Insert(x, s[1..], ByIndex);
      forall k | 0 <= k < |t| ensures s[0].index < t[k].index {
        assert t[k] in multiset([x] + s[1..]);
        assert t[k] == x || t[k] in s[1..];
      }
      ConsAscending(s[0], t);
    }
  }

  /** Sorting records with distinct indices by index puts them in strictly ascending index order. */
  lemma {:induction false} SortByIndexAscending(s: seq<Item>)
    requires DistinctIndices(s)
    ensures IndicesAscending(SortBy(s, ByIndex))
  {
    if s != [] {
      SortByIndexAscending(s[1..]);
      SortPermutes(s[1..], ByIndex);
      var t := SortBy(s[1..], ByIndex);
      forall k | 0 <= k < |t| ensures s[0].index != t[k].index {
        assert t[k] in multiset(s[1..]);
      }
      InsertByIndex(s[0], t);
    }
  }

  /** The words listed for the player: the placed items, back in original word order. */
  function Listed(items: seq<Item>): (r: seq<Item>)
    ensures multiset(r) == multiset(Placed(items))
  {
    SortPermutes(Placed(items), ByIndex);
    SortBy(Placed(items), ByIndex)
  }

  /**
   * Sorting longest first the records built from the words gives a
   * permutation of them in which the cleaned lengths never increase, and
   * equal lengths keep their word order.
   */
  lemma PlacementOrder(words: seq<string>)
    ensures var sorted := SortBy(MakeItems(words), ByLengthDesc);
            && multiset(sorted) == multiset(MakeItems(words))
            && (forall i, j :: 0 <= i < j < |sorted| ==> |sorted[i].clean| >= |sorted[j].clean|)
            && StablySorted(sorted, ByLengthDesc)
  {
    var items := MakeItems(words);
    SortPermutes(items, ByLengthDesc);
    SortStable(items, ByLengthDesc);
  }

  /**
   * When the records have distinct indices, the final list is a permutation
   * of the placed records, holds exactly the records marked as placed, and is
   * in strictly ascending index order.
   */
  lemma ListedIsPlacedInOrder(items: seq<Item>)
    requires DistinctIndices(items)
    ensures multiset(Listed(items)) == multiset(Placed(items))
    ensures forall it :: it in Listed(items) <==> it in items && it.inBoard
    ensures IndicesAscending(Listed(items))
  {
    var p := Placed(items);
    SortPermutes(p, ByIndex);
    PlacedMembers(items);
    forall it ensures it in Listed(items) <==> it in p {
      assert it in Listed(items) <==> it in multiset(Listed(items));
      assert it in p <==> it in multiset(p);
    }
    PlacedDistinct(items);
    SortByIndexAscending(p);
  }

  /** A record built from `words`: its word is the one at its index, cleaned as `cleanWord` does. */
  predicate FromWords(it: Item, words: seq<string>) {
    it.index < |words| && it.word == words[it.index] && it.clean == CleanWord(it.word)
  }

  /** The records, sorted longest first, come from the words and have distinct indices. */
  lemma SortedRecords(words: seq<string>)
    ensures var sorted := SortBy(MakeItems(words), ByLengthDesc);
            && |sorted| == |words|
            && (forall k :: 0 <= k < |sorted| ==> FromWords(sorted[k], words))
            && DistinctIndices(sorted)
  {
    var items := MakeItems(words);
    var sorted := SortBy(items, ByLengthDesc);
    PlacementOrder(words);
    forall k | 0 <= k < |sorted| ensures FromWords(sorted[k], words) {
      assert sorted[k] in multiset(items);
    }
  }

  /** The outcomes of placing the sorted records give a list with the properties `initGame` relies on. */
  lemma ListedRecords(words: seq<string>, sorted: seq<Item>, placed: seq<Item>)
    requires |placed| == |sorted| && DistinctIndices(sorted)
    requires forall k :: 0 <= k < |sorted| ==> FromWords(sorted[k], words)
    requires forall k :: 0 <= k < |sorted| ==> placed[k] == sorted[k].(inBoard := placed[k].inBoard)
    requires forall k :: 0 <= k < |placed| && placed[k].inBoard ==> |placed[k].clean| <= BOARD_ROWS
    ensures IndicesAscending(Listed(placed))
    ensures forall it :: it in Listed(placed) <==> it in placed && it.inBoard
    ensures forall it :: it in Listed(placed) ==> FromWords(it, words) && |it.clean| <= BOARD_ROWS
  {
    assert DistinctIndices(placed) by {
      forall i, j | 0 <= i < j < |placed| ensures placed[i].index != placed[j].index {
        assert placed[i].index == sorted[i].index && placed[j].index == sorted[j].index;
      }
    }
    ListedIsPlacedInOrder(placed);
    forall it | it in Listed(placed) ensures FromWords(it, words) && |it.clean| <= BOARD_ROWS {
      var k :| 0 <= k < |placed| && placed[k] == it;
      assert FromWords(sorted[k], words);
    }
  }

  /** On the snapshot `g`, `draws[j]` is the first of `draws` whose candidate for `word` is accepted. */
  ghost predicate FirstAccepted(g: Grid, word: string, draws: seq<Draw>, j: nat) {
    && j < |draws| && AcceptedIn(g, word, draws[j])
    && forall i :: 0 <= i < j ==> !AcceptedIn(g, word, draws[i])
  }

  /**
   * What forcing the record `it` with `draws` did to the board: it was placed
   * (`ok`) exactly when one of the default number of draws is accepted on the
   * board `before`, then at the placement `spot` the first accepted draw
   * proposes, and `after` is `before` with the word laid there and every
   * other cell kept; a record that was not placed left the board as it was.
   */
  ghost predicate Forced(it: Item, draws: seq<Draw>, before: Grid, after: Grid, ok: bool, spot: Placement) {
    && (ok <==> exists j :: 0 <= j < BOARD_ROWS * BOARD_COLS && j < |draws| && AcceptedIn(before, it.clean, draws[j]))
    && (ok ==> exists j :: 0 <= j < BOARD_ROWS * BOARD_COLS && FirstAccepted(before, it.clean, draws, j)
                          && spot == Proposed(|it.clean|, draws[j]))
    && (ok ==> after == Commit(before, it.clean, spot))
    && (!ok ==> after == before)
  }

  /** The outcome record `out` is `it` with `inBoard` set as forcing it turned the board `before` into `after`. */
  ghost predicate Recorded(it: Item, draws: seq<Draw>, before: Grid, after: Grid, out: Item, spot: Placement) {
    out == it.(inBoard := out.inBoard) && Forced(it, draws, before, after, out.inBoard, spot)
  }

  /** The records forced so far, each with the board before and after it, in order. */
  ghost predicate AllRecorded(sorted: seq<Item>, attempts: seq<seq<Draw>>, placed: seq<Item>, spots: seq<Placement>, history: seq<Grid>)
    requires |placed| <= |sorted| && |spots| == |placed| && |history| == |placed| + 1
    requires forall k :: 0 <= k < |sorted| ==> sorted[k].index < |attempts|
  {
    forall k :: 0 <= k < |placed| ==>
      Recorded(sorted[k], attempts[sorted[k].index], history[k], history[k + 1], placed[k], spots[k])
  }

  /** Appending the next record's outcome, with the board after it, keeps every record accounted for. */
  lemma RecordNext(sorted: seq<Item>, attempts: seq<seq<Draw>>, placed: seq<Item>, spots: seq<Placement>, history: seq<Grid>,
                   out: Item, spot: Placement, after: Grid)
    requires |placed| < |sorted| && |spots| == |placed| && |history| == |placed| + 1
    requires forall k :: 0 <= k < |sorted| ==> sorted[k].index < |attempts|
    requires AllRecorded(sorted, attempts, placed, spots, history)
    requires Recorded(sorted[|placed|], attempts[sorted[|placed|].index], history[|placed|], after, out, spot)
    ensures AllRecorded(sorted, attempts, placed + [out], spots + [spot], history + [after])
  {
    var p, sp, h := placed + [out], spots + [spot], history + [after];
    forall k | 0 <= k < |p| ensures Recorded(sorted[k], attempts[sorted[k].index], h[k], h[k + 1], p[k], sp[k]) {
      if k < |placed| {
        assert p[k] == placed[k] && sp[k] == spots[k] && h[k] == history[k] && h[k + 1] == history[k + 1];
      }
    }
  }

  /**
   * A placed record whose cleaned word holds no sentinel reads on the board as
   * `at` says. (A `'.'` in a cleaned word is written as the sentinel itself, so
   * later writes may replace it.)
   */
  ghost predicate Readable(board: Board, it: Item, at: Placement)
    requires board.Valid()
    reads board.cells
  {
    it.inBoard && INIT_CHAR !in it.clean ==> board.Shows(it.clean, at)
  }

  /**
   * `item.inBoard = forceWord(item.clean)` for one record, with the default
   * `times` of `forceWord`. It succeeds exactly when one of the draws is
   * accepted, and then the board is the old one with the word laid at the
   * placement the first accepted draw proposes; otherwise the board is
   * unchanged. No letter is overwritten.
   */
  method ForceItem(board: Board, it: Item, draws: seq<Draw>) returns (ok: bool, ghost at: Placement)
    requires board.Valid() && |draws| >= BOARD_ROWS * BOARD_COLS
    modifies board.cells
    ensures Forced(it, draws, old(board.Contents()), board.Contents(), ok, at)
    ensures ok ==> board.Shows(it.clean, at) && |it.clean| <= BOARD_ROWS
    ensures ok ==> forall r, c :: InBoard(r, c) && !OnRun(at.dir, at.row, at.col, |it.clean|, r, c) ==>
                     board.cells[r, c] == old(board.cells[r, c])
    ensures !ok ==> unchanged(board.cells)
    ensures board.KeepsLetters()
  {
    ghost var before := board.Contents();
    board.ContentsCells();
    board.ContentsKeys();
    ghost var tries;
    ok, tries := board.ForceWord(it.clean, BOARD_ROWS * BOARD_COLS, draws);
    at := Placement(0, 0, Horizontal, false);
    if ok {
      at := Proposed(|it.clean|, draws[tries]);
      assert FirstAccepted(before, it.clean, draws, tries);
      board.ContentsCommitted(before, it.clean, at);
    }
  }

  /**
   * One step of the `forEach` of `initGame`: the record is forced as
   * `ForceItem` says, and since no letter is overwritten, every record of
   * `shown` that was readable at `ats` before still is.
   */
  method PlaceItem(board: Board, it: Item, draws: seq<Draw>, ghost shown: seq<Item>, ghost ats: seq<Placement>)
    returns (ok: bool, ghost at: Placement)
    requires board.Valid() && |draws| >= BOARD_ROWS * BOARD_COLS && |shown| == |ats|
    modifies board.cells
    ensures Forced(it, draws, old(board.Contents()), board.Contents(), ok, at)
    ensures ok ==> board.Shows(it.clean, at) && |it.clean| <= BOARD_ROWS
    ensures ok ==> forall r, c :: InBoard(r, c) && !OnRun(at.dir, at.row, at.col, |it.clean|, r, c) ==>
                     board.cells[r, c] == old(board.cells[r, c])
    ensures !ok ==> unchanged(board.cells)
    ensures board.KeepsLetters()
    ensures forall k :: 0 <= k < |shown| && old(Readable(board, shown[k], ats[k])) ==> Readable(board, shown[k], ats[k])
  {
    ok, at := ForceItem(board, it, draws);
    forall k | 0 <= k < |shown| && old(Readable(board, shown[k], ats[k])) && shown[k].inBoard && INIT_CHAR !in shown[k].clean
      ensures board.Shows(shown[k].clean, ats[k])
    {
      var w, a := Laid(shown[k].clean, ats[k].reverse), ats[k];
      if |w| > 0 {
        FitsIffRunOnBoard(a.dir, |w|, a.row, a.col);
        forall i | 0 <= i < |w| ensures board.cells[RowAt(a.dir, a.row, i), ColAt(a.dir, a.col, i)] == w[i] {
          assert w[i] in w;
        }
      }
    }
  }

  /**
   * `fillBoard`, with what it promises, after which every record of `shown`
   * that was readable at `ats` still is.
   */
  method FillKeeping(board: Board, noise: (int, int) -> Random, ghost shown: seq<Item>, ghost ats: seq<Placement>)
    requires board.Valid() && |shown| == |ats|
    modifies board.cells
    ensures forall r, c :: InBoard(r, c) ==> board.cells[r, c] == FillCell(old(board.cells[r, c]), noise(r, c))
    ensures board.Filled()
    ensures board.KeepsLetters()
    ensures forall k :: 0 <= k < |shown| && old(Readable(board, shown[k], ats[k])) ==> Readable(board, shown[k], ats[k])
  {
    board.FillBoard(noise);
  }

  /**
   * The `forEach` of `initGame` that forces each record of `sorted`, in
   * order, onto the board with the draws of its word; `placed` records the
   * outcomes. `history[k]` is the board before record `k` is forced and
   * `history[|sorted|]` the board after the last: record `k` is placed
   * exactly when one of its draws is accepted on `history[k]`, at the
   * placement the first accepted draw proposes, and a record that is not
   * placed leaves the board as it was.
   */
  method PlaceWords(board: Board, sorted: seq<Item>, attempts: seq<seq<Draw>>)
    returns (placed: seq<Item>, ghost spots: seq<Placement>, ghost history: seq<Grid>)
    requires board.Valid()
    requires forall k :: 0 <= k < |sorted| ==> sorted[k].index < |attempts|
    requires forall i :: 0 <= i < |attempts| ==> |attempts[i]| >= BOARD_ROWS * BOARD_COLS
    modifies board.cells
    ensures |placed| == |sorted| && |spots| == |sorted| && |history| == |sorted| + 1
    ensures history[0] == old(board.Contents()) && history[|sorted|] == board.Contents()
    ensures forall k :: 0 <= k < |sorted| ==>
              Recorded(sorted[k], attempts[sorted[k].index], history[k], history[k + 1], placed[k], spots[k])
    ensures board.KeepsLetters()
    ensures forall k :: 0 <= k < |placed| ==> Readable(board, placed[k], spots[k])
  {
    placed, spots, history := [], [], [board.Contents()];
    for k := 0 to |sorted|
      invariant |placed| == k && |spots| == k && |history| == k + 1
      invariant history[0] == old(board.Contents()) && history[k] == board.Contents()
      invariant AllRecorded(sorted, attempts, placed, spots, history)
      invariant board.KeepsLetters()
      invariant forall j :: 0 <= j < k ==> Readable(board, placed[j], spots[j])
    {
      var it := sorted[k];
      var ok, at := PlaceItem(board, it, attempts[it.index], placed, spots);
      RecordNext(sorted, attempts, placed, spots, history, it.(inBoard := ok), at, board.Contents());
      placed := placed + [it.(inBoard := ok)];
      spots := spots + [at];
      history := history + [board.Contents()];
    }
  }

  /**
   * The set-up part of `initGame`: `attempts[i]` are the draws `forceWord`
   * consumes for the word at index `i`, `noise` the draws of `fillBoard`.
   * `placed` is the map after the `forEach`, `spots` where each placed word
   * went, `history` the board before each record is forced and after the
   * last, and `listed` the list handed to `displayWordList`.
   */
  method InitGame(words: seq<string>, attempts: seq<seq<Draw>>, noise: (int, int) -> Random)
    returns (board: Board, listed: seq<Item>, placed: seq<Item>, ghost spots: seq<Placement>, ghost history: seq<Grid>)
    requires |attempts| == |words|
    requires forall i :: 0 <= i < |words| ==> |attempts[i]| >= BOARD_ROWS * BOARD_COLS
    ensures fresh(board) && board.Valid() && board.Filled()
    ensures |placed| == |words| && |spots| == |words| && |history| == |words| + 1
    ensures forall k :: 0 <= k < |words| ==>
              placed[k] == SortBy(MakeItems(words), ByLengthDesc)[k].(inBoard := placed[k].inBoard)
    ensures forall r, c :: InBoard(r, c) ==> (r, c) in history[0] && history[0][(r, c)] == INIT_CHAR
    ensures forall k :: 0 <= k < |words| ==>
              FromWords(placed[k], words) &&
              Forced(placed[k], attempts[placed[k].index], history[k], history[k + 1], placed[k].inBoard, spots[k])
    ensures forall r, c :: InBoard(r, c) ==>
              (r, c) in history[|words|] && board.cells[r, c] == FillCell(history[|words|][(r, c)], noise(r, c))
    ensures listed == Listed(placed)
    ensures IndicesAscending(listed)
    ensures forall it :: it in listed <==> it in placed && it.inBoard
    ensures forall it :: it in listed ==> FromWords(it, words) && |it.clean| <= BOARD_ROWS
    ensures forall k :: 0 <= k < |words| && placed[k].inBoard && INIT_CHAR !in placed[k].clean ==>
              board.Shows(placed[k].clean, spots[k])
  {
    board := new Board();
    board.ContentsCells();
    var sorted := SortBy(MakeItems(words), ByLengthDesc);
    SortedRecords(words);
    placed, spots, history := PlaceWords(board, sorted, attempts);
    forall k | 0 <= k < |placed|
      ensures placed[k] == sorted[k].(inBoard := placed[k].inBoard)
      ensures placed[k].inBoard ==> |placed[k].clean| <= BOARD_ROWS
      ensures FromWords(placed[k], words) &&
              Forced(placed[k], attempts[placed[k].index], history[k], history[k + 1], placed[k].inBoard, spots[k])
    {
      assert Recorded(sorted[k], attempts[sorted[k].index], history[k], history[k + 1], placed[k], spots[k]);
    }
    listed := Listed(placed);
    ListedRecords(words, sorted, placed);
    board.ContentsCells();
    FillKeeping(board, noise, placed, spots);
  }
}
