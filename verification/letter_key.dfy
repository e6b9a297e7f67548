/** The navigation letter of an index entry (`_get_first_letter_for_index`):
    the word's initial, lower-cased, with the seven accented vowels of
    Catalan folded to their plain forms. */
module LetterKey {
  import opened Wrappers
  import opened Text

  /** The exception `word_ca[0]` raises when the word is the empty string. */
  datatype Error = IndexError

  /** The accent table: each accented lower-case vowel and its plain vowel. */
  const AccentTable: map<char, char> := map[
    '\U{E0}' := 'a',  // a grave
    '\U{E8}' := 'e',  // e grave
    '\U{E9}' := 'e',  // e acute
    '\U{ED}' := 'i',  // i acute
    '\U{F3}' := 'o',  // o acute
    '\U{F2}' := 'o',  // o grave
    '\U{FA}' := 'u'   // u acute
  ]

  /** A character that can serve as a navigation letter: already lower
      case and not one of the accented vowels the table folds. */
  predicate IsNavigationLetter(c: char) {
    !IsUpper(c) && c !in AccentTable
  }

  /** The navigation letter of one initial: lower-case it, then apply the
      accent table. */
  function LetterOf(c: char): (r: char)
    ensures IsNavigationLetter(r)
  {
    var s := ToLower(c);
    if s in AccentTable then AccentTable[s] else s
  }

  /** `_get_first_letter_for_index`: `None` gives the empty key, the empty
      string raises, any other word gives a one-character navigation key. */
  function FirstLetterForIndex(word: Option<string>): (r: Result<string, Error>)
    ensures word.None? ==> r == Success("")
    ensures word == Some("") ==> r == Failure(IndexError)
    ensures word.Some? && word.value != "" ==>
              r.Success? && |r.value| == 1 && IsNavigationLetter(r.value[0])
  {
    match word
    case None => Success("")
    case Some(w) => if |w| == 0 then Failure(IndexError) else Success([LetterOf(w[0])])
  }

  /** The key depends on the initial alone, and only up to case. */
  lemma KeyIgnoresCaseAndTail(w1: string, w2: string)
    requires w1 != "" && w2 != ""
    requires ToLower(w1[0]) == ToLower(w2[0])
    ensures FirstLetterForIndex(Some(w1)) == FirstLetterForIndex(Some(w2))
  {
  }

  /** A key is its own key: indexing an index letter gives it back. */
  lemma KeyIsFixedPoint(w: string)
    requires w != ""
    ensures FirstLetterForIndex(Some(FirstLetterForIndex(Some(w)).value)) == FirstLetterForIndex(Some(w))
  {
    var k := LetterOf(w[0]);
    assert ToLower(k) == k;
  }

  /** An initial that is neither upper case nor in the table is its own key. */
  lemma PlainInitialIsKept(w: string)
    requires w != "" && IsNavigationLetter(w[0])
    ensures FirstLetterForIndex(Some(w)) == Success([w[0]])
  {
  }

  /** Upper-case letters are lowered: an ASCII capital gives the matching
      small letter. */
  lemma CapitalInitialIsLowered(w: string)
    requires w != "" && 'A' <= w[0] <= 'Z'
    ensures FirstLetterForIndex(Some(w)) == Success([(w[0] as int + 32) as char])
  {
  }

  /** An initial whose lower case is not an accented vowel of the table
      is kept, lower-cased. */
  lemma UnaccentedInitialIsLowered(w: string)
    requires w != "" && ToLower(w[0]) !in AccentTable
    ensures FirstLetterForIndex(Some(w)) == Success([ToLower(w[0])])
  {
  }

  /** Lower-casing happens before the table lookup, so every accented vowel,
      small or capital, folds to its plain small vowel. */
  lemma AccentedInitialFolds(w: string)
    requires w != ""
    ensures w[0] in {'\U{E0}', '\U{C0}'} ==> FirstLetterForIndex(Some(w)) == Success("a")
    ensures w[0] in {'\U{E8}', '\U{E9}', '\U{C8}', '\U{C9}'} ==> FirstLetterForIndex(Some(w)) == Success("e")
    ensures w[0] in {'\U{ED}', '\U{CD}'} ==> FirstLetterForIndex(Some(w)) == Success("i")
    ensures w[0] in {'\U{F3}', '\U{F2}', '\U{D3}', '\U{D2}'} ==> FirstLetterForIndex(Some(w)) == Success("o")
    ensures w[0] in {'\U{FA}', '\U{DA}'} ==> FirstLetterForIndex(Some(w)) == Success("u")
  {
  }
}
