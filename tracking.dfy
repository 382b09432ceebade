/**
 * The list of words to search and its found marks: `checkWordNotFound`,
 * `markWordAsFound`, `countWordsNotFound` and the win condition.
 */
module Tracking {
  import opened Util

  /** One item of the displayed list: its cleaned word and whether it is crossed out. */
  datatype Entry = Entry(clean: string, found: bool)

  /** The entry is still to be found and its cleaned word is `word`. */
  predicate Matches(e: Entry, word: string) {
    !e.found && e.clean == word
  }

  /**
   * `checkWordNotFound`: the first entry, in list order, that is not found
   * yet and whose cleaned word equals `word`; `None` when there is none.
   */
  function FirstUnfound(entries: seq<Entry>, word: string): (r: Option<nat>)
    ensures r.Some? ==> r.value < |entries| && Matches(entries[r.value], word)
    ensures r.Some? ==> forall j :: 0 <= j < r.value ==> !Matches(entries[j], word)
    ensures r.None? <==> forall j :: 0 <= j < |entries| ==> !Matches(entries[j], word)
  {
    if entries == [] then None
    else if Matches(entries[0], word) then Some(0)
    else match FirstUnfound(entries[1..], word)
         case None => None
         case Some(i) => Some(i + 1)
  }

  /** `countWordsNotFound`: the number of entries not crossed out; none exactly when every entry is. */
  function UnfoundCount(entries: seq<Entry>): (n: nat)
    ensures n <= |entries|
    ensures n == 0 <==> forall j :: 0 <= j < |entries| ==> entries[j].found
  {
    if entries == [] then 0
    else
      assert forall j :: 1 <= j < |entries| ==> entries[j] == entries[1..][j - 1];
      (if entries[0].found then 0 else 1) + UnfoundCount(entries[1..])
  }

  /** The entry at `i` crossed out; every other entry as it was. */
  function Flip(entries: seq<Entry>, i: nat): (r: seq<Entry>)
    requires i < |entries|
    ensures |r| == |entries| && r[i] == Entry(entries[i].clean, true)
    ensures forall j :: 0 <= j < |entries| && j != i ==> r[j] == entries[j]
  {
    entries[i := Entry(entries[i].clean, true)]
  }

  /** The win test of `mouseUpListener`: no entry is left to find, that is, every entry is crossed out. */
  predicate Won(entries: seq<Entry>): (w: bool)
    ensures w <==> forall j :: 0 <= j < |entries| ==> entries[j].found
  {
    UnfoundCount(entries) == 0
  }

  /** Crossing out an entry that was still to be found lowers the count by exactly one. */
  lemma {:induction false} FlipCount(entries: seq<Entry>, i: nat)
    requires i < |entries| && !entries[i].found
    ensures UnfoundCount(Flip(entries, i)) == UnfoundCount(entries) - 1
  {
    if i > 0 {
      FlipCount(entries[1..], i - 1);
      assert Flip(entries, i)[1..] == Flip(entries[1..], i - 1);
    }
  }

  /**
   * Marking `word` when it is on the list exactly once: afterwards
   * `checkWordNotFound(word)` finds nothing, so a second submission fails.
   */
  lemma ResubmitFails(entries: seq<Entry>, word: string, i: nat)
    requires i < |entries| && Matches(entries[i], word)
    requires forall j :: 0 <= j < |entries| && j != i ==> !Matches(entries[j], word)
    ensures FirstUnfound(entries, word) == Some(i)
    ensures FirstUnfound(Flip(entries, i), word).None?
  {
    var f := Flip(entries, i);
    assert forall j :: 0 <= j < |f| ==> !Matches(f[j], word);
  }

  /** Marking one word leaves the answer of `checkWordNotFound` for every other word as it was. */
  lemma {:induction false} FlipKeepsOtherWords(entries: seq<Entry>, i: nat, other: string)
    requires i < |entries| && other != entries[i].clean
    ensures FirstUnfound(Flip(entries, i), other) == FirstUnfound(entries, other)
  {
    if i > 0 {
      FlipKeepsOtherWords(entries[1..], i - 1, other);
      assert Flip(entries, i)[1..] == Flip(entries[1..], i - 1);
    }
  }

  /** The displayed list of words to search, with the found marks the page keeps on it. */
  class WordList {
    var entries: seq<Entry>

    /** `displayWordList`: one entry per listed cleaned word, none of them found. */
    constructor (cleans: seq<string>)
      ensures |entries| == |cleans|
      ensures forall k :: 0 <= k < |cleans| ==> entries[k] == Entry(cleans[k], false)
    {
      entries := seq(|cleans|, k requires 0 <= k < |cleans| => Entry(cleans[k], false));
    }

    /**
     * `markWordAsFound`: cross out the entry `checkWordNotFound` finds and
     * report whether there was one; otherwise change nothing.
     */
    method MarkWordAsFound(word: string) returns (ok: bool)
      modifies this
      ensures ok == old(FirstUnfound(entries, word)).Some?
      ensures ok ==> entries == Flip(old(entries), old(FirstUnfound(entries, word)).value)
      ensures !ok ==> entries == old(entries)
      ensures UnfoundCount(entries) == old(UnfoundCount(entries)) - (if ok then 1 else 0)
    {
      var found := FirstUnfound(entries, word);
      if found.Some? {
        FlipCount(entries, found.value);
        entries := Flip(entries, found.value);
        ok := true;
      } else {
        ok := false;
      }
    }
  }
}
