/**
 * String helpers of the word-search game: `reverseString` and `cleanWord`.
 */
module Text {

  /** `reverseString`: the characters of `s` in the opposite order. */
  function Reverse(s: string): (r: string)
    ensures |r| == |s|
  {
    if s == [] then [] else Reverse(s[1..]) + [s[0]]
  }

  lemma {:induction false} ReverseAt(s: string, k: nat)
    requires k < |s|
    ensures Reverse(s)[k] == s[|s| - 1 - k]
  {
    if k < |s| - 1 {
      ReverseAt(s[1..], k);
    }
  }

  /** A string that holds, at every index, the mirrored character of `s` is the reverse of `s`. */
  lemma ReverseIs(s: string, r: string)
    requires |r| == |s| && forall k :: 0 <= k < |s| ==> r[k] == s[|s| - 1 - k]
    ensures r == Reverse(s)
  {
    forall k | 0 <= k < |s| ensures r[k] == Reverse(s)[k] {
      ReverseAt(s, k);
    }
  }

  /** Reversing twice gives the string back. */
  lemma ReverseReverse(s: string)
    ensures Reverse(Reverse(s)) == s
  {
    var r := Reverse(s);
    forall k | 0 <= k < |s|
      ensures Reverse(r)[k] == s[k]
    {
      ReverseAt(r, k);
      ReverseAt(s, |s| - 1 - k);
    }
  }

  /** Reversing keeps the set of characters. */
  lemma {:induction false} ReverseMembers(s: string)
    ensures forall c :: c in Reverse(s) <==> c in s
  {
    if s != [] {
      ReverseMembers(s[1..]);
      assert s == [s[0]] + s[1..];
    }
  }

  // The character classes of the regular expressions in `cleanWord`.
  predicate IsAccentedA(c: char) { c == 'á' || c == 'â' || c == 'à' || c == 'ä' }
  predicate IsAccentedE(c: char) { c == 'é' || c == 'ê' || c == 'è' || c == 'ë' }
  predicate IsAccentedI(c: char) { c == 'í' || c == 'î' || c == 'ì' || c == 'ï' }
  predicate IsAccentedO(c: char) { c == 'ó' || c == 'ô' || c == 'ò' || c == 'ö' }
  predicate IsAccentedU(c: char) { c == 'ú' || c == 'û' || c == 'ù' || c == 'ü' }
  predicate IsAccented(c: char) {
    IsAccentedA(c) || IsAccentedE(c) || IsAccentedI(c) || IsAccentedO(c) || IsAccentedU(c)
  }

  /** The ECMAScript `\s` class: white space and line terminators. */
  predicate IsSpace(c: char) {
    || c == '\t' || c == '\n' || c == '\U{000B}' || c == '\U{000C}' || c == '\r'
    || c == ' ' || c == '\U{00A0}' || c == '\U{1680}'
    || ('\U{2000}' <= c <= '\U{200A}')
    || c == '\U{2028}' || c == '\U{2029}' || c == '\U{202F}' || c == '\U{205F}'
    || c == '\U{3000}' || c == '\U{FEFF}'
  }

  /** The characters the last `replace` deletes: `[\s']`. */
  predicate IsDropped(c: char) { IsSpace(c) || c == '\'' }

  /** The five character classes of the vowel passes. */
  datatype Vowel = A | E | I | O | U

  predicate InClass(v: Vowel, c: char) {
    match v
    case A => IsAccentedA(c)
    case E => IsAccentedE(c)
    case I => IsAccentedI(c)
    case O => IsAccentedO(c)
    case U => IsAccentedU(c)
  }

  /** `s.replace(/[...]/g, to)`: every character of the class `v` becomes `to`. */
  function ReplaceAll(s: string, v: Vowel, to: char): (r: string)
    ensures |r| == |s|
    ensures !InClass(v, to) ==> forall i :: 0 <= i < |r| ==> !InClass(v, r[i])
    ensures forall i :: 0 <= i < |s| && !InClass(v, s[i]) ==> r[i] == s[i]
    ensures forall i :: 0 <= i < |s| && InClass(v, s[i]) ==> r[i] == to
  {
    seq(|s|, i requires 0 <= i < |s| => if InClass(v, s[i]) then to else s[i])
  }

  /** `s.replace(/[\s']/g, '')`: every white space and apostrophe is deleted. */
  function RemoveDropped(s: string): (r: string)
    ensures |r| <= |s|
    ensures forall i :: 0 <= i < |r| ==> !IsDropped(r[i]) && r[i] in s
    ensures (forall i :: 0 <= i < |s| ==> !IsDropped(s[i])) ==> r == s
  {
    if s == [] then []
    else (if IsDropped(s[0]) then [] else [s[0]]) + RemoveDropped(s[1..])
  }

  /** `cleanWord`: the vowel passes, then the deletion of white space and apostrophes. */
  function CleanWord(word: string): (r: string)
    ensures |r| <= |word|
    ensures forall k :: 0 <= k < |r| ==> !IsDropped(r[k]) && !IsAccented(r[k])
  {
    RemoveDropped(VowelPasses(word))
  }

  /**
   * Reference definition of cleaning one character: white space and the
   * apostrophe vanish, an accented vowel becomes its base vowel, and every
   * other character (`ñ`, upper case, digits, ...) is kept.
   */
  function Fold(c: char): string {
    if IsDropped(c) then ""
    else if IsAccentedA(c) then "a"
    else if IsAccentedE(c) then "e"
    else if IsAccentedI(c) then "i"
    else if IsAccentedO(c) then "o"
    else if IsAccentedU(c) then "u"
    else [c]
  }

  /** Reference definition of cleaning a word: each character cleaned, in order. */
  function FoldAll(s: string): string {
    if s == [] then [] else Fold(s[0]) + FoldAll(s[1..])
  }

  /** The character a letter becomes after the vowel passes. */
  function BaseVowel(c: char): (b: char)
    ensures !IsAccented(b)
    ensures !IsAccented(c) ==> b == c
  {
    if IsAccentedA(c) then 'a'
    else if IsAccentedE(c) then 'e'
    else if IsAccentedI(c) then 'i'
    else if IsAccentedO(c) then 'o'
    else if IsAccentedU(c) then 'u'
    else c
  }

  /** The vowel passes of `cleanWord`: one per vowel, the `u` pass twice. */
  function VowelPasses(word: string): (r: string)
    ensures |r| == |word|
    ensures forall i :: 0 <= i < |word| ==> r[i] == BaseVowel(word[i])
  {
    var a := ReplaceAll(word, A, 'a');
    var e := ReplaceAll(a, E, 'e');
    var i := ReplaceAll(e, I, 'i');
    var o := ReplaceAll(i, O, 'o');
    var u := ReplaceAll(o, U, 'u');
    ReplaceAll(u, U, 'u')  // the source applies the `u` pass twice
  }

  lemma VowelPassesCons(word: string)
    requires word != []
    ensures VowelPasses(word) == [BaseVowel(word[0])] + VowelPasses(word[1..])
  {
    var l, r := VowelPasses(word), [BaseVowel(word[0])] + VowelPasses(word[1..]);
    assert |l| == |r|;
    forall k | 0 <= k < |l| ensures l[k] == r[k] {
      if k > 0 {
        assert word[k] == word[1..][k - 1];
      }
    }
  }

  /** A leading character that went through the vowel passes is deleted or kept as `Fold` says. */
  lemma RemoveStep(m: string, c: char)
    requires m != [] && m[0] == BaseVowel(c)
    ensures RemoveDropped(m) == Fold(c) + RemoveDropped(m[1..])
  {
    if IsDropped(c) {
      assert m[0] == c;
    } else {
      assert !IsDropped(m[0]) && Fold(c) == [m[0]];
    }
  }

  lemma {:induction false} RemoveAfterVowels(word: string)
    ensures RemoveDropped(VowelPasses(word)) == FoldAll(word)
  {
    if word != [] {
      VowelPassesCons(word);
      var m := VowelPasses(word);
      RemoveStep(m, word[0]);
      RemoveAfterVowels(word[1..]);
    }
  }

  /** `cleanWord` agrees with the character-by-character reference definition. */
  lemma CleanWordIsFold(word: string)
    ensures CleanWord(word) == FoldAll(word)
  {
    RemoveAfterVowels(word);
  }

  /** Cleaning a cleaned word changes nothing. */
  lemma CleanWordIdempotent(word: string)
    ensures CleanWord(CleanWord(word)) == CleanWord(word)
  {
    var c := CleanWord(word);
    assert VowelPasses(c) == c;
  }
}
