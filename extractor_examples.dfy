/**
 * The worked example of `extract_password_from_response`'s documentation,
 * answers made only of separators, and an item with a non-ASCII letter,
 * checked against the model. The examples hold for every word class that
 * agrees with Python's `\w` on ASCII and excludes whitespace.
 * Each step is its own small lemma: the example text is long enough that
 * unfolding the extraction on it in one go is expensive.
 */
module ExtractorExamples {
  import opened Wrappers
  import opened Text
  import opened Extractor

  /** The documented example answer. */
  const Doc := "New Zealand, United Kingdom, A, B"

  /** Its comma-separated items, spaces included. */
  const DocItems := ["New Zealand", " United Kingdom", " A", " B"]

  /** Joining the four items with commas gives the example back. */
  lemma DocJoin()
    ensures Join(DocItems, ',') == Doc
  {
    assert Join(DocItems[3..], ',') == " B";
    assert Join(DocItems[2..], ',') == " A, B";
    assert Join(DocItems[1..], ',') == " United Kingdom, A, B";
  }

  /** Splitting the example at commas gives its four items. */
  lemma DocSplit()
    ensures Split(Doc, ',') == DocItems
  {
    DocJoin();
    assert forall k :: 0 <= k < |DocItems| ==> ',' !in DocItems[k];
    SplitJoin(DocItems, ',');
  }

  /** "New Zealand" contributes `N`. */
  lemma DocFirstItem(isWord: char -> bool)
    requires AgreesWithWordOnAscii(isWord) && ExcludesSpace(isWord)
    ensures ItemLetter(isWord, DocItems[0]) == Some('N')
  {
    ItemLetterCharacterised(isWord, DocItems[0], 0);
  }

  /** " United Kingdom" contributes `U`: the leading space is stripped. */
  lemma DocSecondItem(isWord: char -> bool)
    requires AgreesWithWordOnAscii(isWord) && ExcludesSpace(isWord)
    ensures ItemLetter(isWord, DocItems[1]) == Some('U')
  {
    ItemLetterCharacterised(isWord, DocItems[1], 1);
  }

  /** " A" and " B" are single letters and contribute nothing. */
  lemma DocShortItems(isWord: char -> bool)
    requires AgreesWithWordOnAscii(isWord) && ExcludesSpace(isWord)
    ensures ItemLetter(isWord, DocItems[2]) == None && ItemLetter(isWord, DocItems[3]) == None
  {
    ItemLetterCharacterised(isWord, DocItems[2], 1);
    ItemLetterCharacterised(isWord, DocItems[3], 1);
  }

  /** The letters of a four-item list, item by item. */
  lemma CollectFour(p0: string, p1: string, p2: string, p3: string, letter: string -> Option<char>)
    ensures Collect([p0, p1, p2, p3], letter) ==
      OptionalLetter(letter(p0)) + OptionalLetter(letter(p1)) + OptionalLetter(letter(p2)) + OptionalLetter(letter(p3))
  {
    var places := [p0, p1, p2, p3];
    CollectSnoc([], p0, letter);
    CollectSnoc(places[..1], p1, letter);
    CollectSnoc(places[..2], p2, letter);
    CollectSnoc(places[..3], p3, letter);
    assert places[..1] == [] + [p0];
    assert places[..2] == places[..1] + [p1];
    assert places[..3] == places[..2] + [p2];
    assert places == places[..3] + [p3];
  }

  /** The letters of the example's items spell "NU". */
  lemma DocLetters(isWord: char -> bool)
    requires AgreesWithWordOnAscii(isWord) && ExcludesSpace(isWord)
    ensures Letters(isWord, DocItems) == "NU"
  {
    DocFirstItem(isWord);
    DocSecondItem(isWord);
    DocShortItems(isWord);
    CollectFour(DocItems[0], DocItems[1], DocItems[2], DocItems[3], LetterOf(isWord));
    assert DocItems == [DocItems[0], DocItems[1], DocItems[2], DocItems[3]];
  }

  /** The extraction of the example answer is the password of its letters. */
  lemma DocExtract(isWord: char -> bool)
    ensures Extract(isWord, Doc) == if Letters(isWord, DocItems) == [] then None else Some(Letters(isWord, DocItems))
  {
    DocSplit();
  }

  /** The documented example: "New Zealand, United Kingdom, A, B" gives "NU". */
  lemma DocExample(isWord: char -> bool)
    requires AgreesWithWordOnAscii(isWord) && ExcludesSpace(isWord)
    ensures Extract(isWord, Doc) == Some("NU")
  {
    DocExtract(isWord);
    DocLetters(isWord);
  }

  /** An empty answer and an answer of blank items give no password. */
  lemma BlankAnswers(isWord: char -> bool)
    ensures Extract(isWord, "") == None
    ensures Extract(isWord, " , ,\t,") == None
  {
    OnlyCommasAndBlanks(isWord, "");
    OnlyCommasAndBlanks(isWord, " , ,\t,");
  }

  /** An ordinary country name with a non-ASCII letter. */
  const Turkiye := "T\U{FC}rkiye"

  /** Its first word is the whole name, since `\w` matches `ü`: the item
      contributes `T`. */
  lemma NonAsciiLetterInWord(isWord: char -> bool)
    requires AgreesWithWordOnAscii(isWord) && ExcludesSpace(isWord) && isWord('\U{FC}')
    ensures ItemLetter(isWord, Turkiye) == Some('T')
  {
    ItemLetterCharacterised(isWord, Turkiye, 0);
  }
}
