/**
 * The password extractor of play.py (`extract_password_from_response`): the
 * answer to the game's question is a comma-separated list of places, and the
 * password is made of the first letter of each place whose first word has at
 * least two characters.
 */
module Extractor {
  import opened Wrappers
  import opened Text

  /** The letter one item of the list contributes to the password: nothing
      when the stripped item is empty, when it does not start with a word
      character, or when its leading word is shorter than two characters;
      otherwise the first character of that word. `isWord` is the class `\w`. */
  function ItemLetter(isWord: char -> bool, place: string): (letter: Option<char>)
    ensures letter.Some? ==> isWord(letter.value)
  {
    var cleaned := Strip(place);
    if cleaned == [] then None
    else
      match MatchLeadingWord(isWord, cleaned)
      case None => None
      case Some(word) => if |word| >= 2 then Some(word[0]) else None
  }

  /** The letters `letter` gives the items of `places`, in order: the list
      `password_letters` once the loop has gone over `places`. */
  function Collect(places: seq<string>, letter: string -> Option<char>): seq<char> {
    if places == [] then []
    else Collect(places[..|places| - 1], letter) + OptionalLetter(letter(places[|places| - 1]))
  }

  /** A letter that may be missing, as a sequence of zero or one characters. */
  function OptionalLetter(letter: Option<char>): seq<char> {
    if letter.Some? then [letter.value] else []
  }

  /** `ItemLetter` for the word class `isWord`, as a function of the item. */
  function LetterOf(isWord: char -> bool): string -> Option<char> {
    place => ItemLetter(isWord, place)
  }

  /** The letters of the items of `places`, in order. */
  function Letters(isWord: char -> bool, places: seq<string>): seq<char> {
    Collect(places, LetterOf(isWord))
  }

  /** The password for a response text, or `None` when no item contributes a
      letter. */
  function Extract(isWord: char -> bool, text: string): (password: Option<string>)
    ensures password != Some([])
  {
    var letters := Letters(isWord, Split(text, ','));
    if letters != [] then Some(letters) else None
  }

  /** `Extract` for the word class `isWord`, as a function of the response. */
  function PasswordExtraction(isWord: char -> bool): string -> Option<string> {
    text => Extract(isWord, text)
  }

  /** The loop of `extract_password_from_response`: split the text on commas,
      append the letter of each item, and give `None` for an empty result. */
  method ExtractPassword(isWord: char -> bool, text: string) returns (password: Option<string>)
    ensures password == Extract(isWord, text)
    ensures password != Some([])
  {
    var places := Split(text, ',');
    var passwordLetters: seq<char> := [];
    for n := 0 to |places|
      invariant passwordLetters == Letters(isWord, places[..n])
    {
      assert places[..n + 1][..n] == places[..n];
      var cleanedPlace := Strip(places[n]);
      if cleanedPlace == [] {
        continue;
      }
      var firstWordMatch := MatchLeadingWord(isWord, cleanedPlace);
      if firstWordMatch.Some? {
        var firstWord := firstWordMatch.value;
        if |firstWord| >= 2 {
          passwordLetters := passwordLetters + [firstWord[0]];
        }
      }
    }
    assert places[..|places|] == places;
    if passwordLetters != [] {
      return Some(passwordLetters);
    }
    return None;
  }

  // ---------------------------------------------------------------------------
  // Which items contribute, and what

  /** `k` is the position of the first character of `s` that is not whitespace. */
  ghost predicate FirstNonSpaceAt(s: string, k: int) {
    0 <= k < |s| && !IsSpace(s[k]) && forall i :: 0 <= i < k ==> IsSpace(s[i])
  }

  /** An item contributes a letter exactly when its first non-blank character
      and the character right after it are both word characters, and the
      letter is that first non-blank character, case unchanged. */
  lemma ItemLetterCharacterised(isWord: char -> bool, place: string, k: int)
    requires ExcludesSpace(isWord)
    requires FirstNonSpaceAt(place, k)
    ensures ItemLetter(isWord, place).Some? <==> k + 1 < |place| && isWord(place[k]) && isWord(place[k + 1])
    ensures ItemLetter(isWord, place).Some? ==> ItemLetter(isWord, place).value == place[k]
  {
    StripAt(place, k);
    var cleaned := Strip(place);
    MatchLeadingWordSpec(isWord, cleaned);
    var m := MatchLeadingWord(isWord, cleaned);
    if m.Some? && |m.value| >= 2 {
      assert m.value[1] == cleaned[1];
    }
  }

  /** Where the stripped item starts: at the first non-blank character. */
  lemma StripAt(place: string, k: int)
    requires FirstNonSpaceAt(place, k)
    ensures Strip(place) != [] && Strip(place)[0] == place[k]
    ensures |Strip(place)| >= 2 ==> k + 1 < |place| && Strip(place)[1] == place[k + 1]
    ensures k + 1 < |place| && !IsSpace(place[k + 1]) ==> |Strip(place)| >= 2
  {
    StripSpec(place);
    LeadingSpacesSpec(place);
    assert LeadingSpaces(place) == k;
  }

  /** An item made only of whitespace contributes nothing. */
  lemma ItemLetterAllSpace(isWord: char -> bool, place: string)
    requires forall i :: 0 <= i < |place| ==> IsSpace(place[i])
    ensures ItemLetter(isWord, place) == None
  {
    StripSpec(place);
  }

  // ---------------------------------------------------------------------------
  // The password, item by item

  /** The positions of the items to which `letter` gives a letter. */
  ghost function Contributing(places: seq<string>, letter: string -> Option<char>): set<int> {
    set i | 0 <= i < |places| && letter(places[i]).Some?
  }

  /** One more item adds its letter, if any, at the end. */
  lemma CollectSnoc(init: seq<string>, place: string, letter: string -> Option<char>)
    ensures Collect(init + [place], letter) == Collect(init, letter) + OptionalLetter(letter(place))
  {
    assert (init + [place])[..|init|] == init;
  }

  /** The letters of two lists one after the other are the letters of each. */
  lemma {:induction false} CollectAppend(a: seq<string>, b: seq<string>, letter: string -> Option<char>)
    ensures Collect(a + b, letter) == Collect(a, letter) + Collect(b, letter)
    decreases |b|
  {
    if b == [] {
      assert a + b == a;
    } else {
      var init, last := b[..|b| - 1], b[|b| - 1];
      assert b == init + [last];
      calc {
        Collect(a + b, letter);
        { assert a + b == (a + init) + [last]; }
        Collect((a + init) + [last], letter);
        { CollectSnoc(a + init, last, letter); }
        Collect(a + init, letter) + OptionalLetter(letter(last));
        { CollectAppend(a, init, letter); }
        Collect(a, letter) + Collect(init, letter) + OptionalLetter(letter(last));
        { CollectSnoc(init, last, letter); }
        Collect(a, letter) + Collect(b, letter);
      }
    }
  }

  /** One letter per item to which `letter` gives one. */
  lemma {:induction false} CollectCount(places: seq<string>, letter: string -> Option<char>)
    ensures |Collect(places, letter)| == |Contributing(places, letter)|
    decreases |places|
  {
    if places != [] {
      var n := |places| - 1;
      var init := places[..n];
      CollectCount(init, letter);
      if letter(places[n]).Some? {
        assert Contributing(places, letter) == Contributing(init, letter) + {n};
      } else {
        assert Contributing(places, letter) == Contributing(init, letter);
      }
    }
  }

  /** The letter of item `j` sits after one letter for each earlier item that
      has one. */
  lemma CollectAt(places: seq<string>, j: int, letter: string -> Option<char>)
    requires 0 <= j < |places| && letter(places[j]).Some?
    ensures |Contributing(places[..j], letter)| < |Collect(places, letter)|
    ensures Collect(places, letter)[|Contributing(places[..j], letter)|] == letter(places[j]).value
  {
    var head := places[..j + 1];
    assert places == head + places[j + 1..];
    CollectAppend(head, places[j + 1..], letter);
    assert head[..j] == places[..j];
    CollectCount(places[..j], letter);
  }

  /** An item that contributes no letter can be removed without changing the
      password. */
  lemma SkippedItem(isWord: char -> bool, before: seq<string>, place: string, after: seq<string>)
    requires ItemLetter(isWord, place).None?
    ensures Letters(isWord, before + [place] + after) == Letters(isWord, before + after)
  {
    CollectAppend(before + [place], after, LetterOf(isWord));
    CollectSnoc(before, place, LetterOf(isWord));
    CollectAppend(before, after, LetterOf(isWord));
  }

  /** The accumulated letters, stated per item: none exactly when no item has
      a letter; otherwise one letter per item that has one, each at the
      position given by the number of earlier items that have one. */
  lemma CollectCharacterised(places: seq<string>, letter: string -> Option<char>)
    ensures Collect(places, letter) == [] <==> forall j :: 0 <= j < |places| ==> letter(places[j]).None?
    ensures |Collect(places, letter)| == |Contributing(places, letter)|
    ensures forall j :: 0 <= j < |places| && letter(places[j]).Some? ==>
      && |Contributing(places[..j], letter)| < |Collect(places, letter)|
      && Collect(places, letter)[|Contributing(places[..j], letter)|] == letter(places[j]).value
  {
    CollectCount(places, letter);
    forall j | 0 <= j < |places| && letter(places[j]).Some?
      ensures |Contributing(places[..j], letter)| < |Collect(places, letter)|
      ensures Collect(places, letter)[|Contributing(places[..j], letter)|] == letter(places[j]).value
    {
      CollectAt(places, j, letter);
    }
    if Collect(places, letter) == [] {
      forall j | 0 <= j < |places| ensures letter(places[j]).None? {
        assert j !in Contributing(places, letter);
      }
    }
  }

  /** What `extract_password_from_response` returns, stated per item of the
      comma-separated response: `None` exactly when no item contributes a
      letter; otherwise a password with one letter per contributing item, in
      the order of the items. */
  lemma ExtractCharacterised(isWord: char -> bool, text: string)
    ensures Extract(isWord, text).None? <==>
      forall j :: 0 <= j < |Split(text, ',')| ==> ItemLetter(isWord, Split(text, ',')[j]).None?
    ensures Extract(isWord, text).Some? ==>
      |Extract(isWord, text).value| == |Contributing(Split(text, ','), LetterOf(isWord))|
    ensures forall j :: 0 <= j < |Split(text, ',')| && ItemLetter(isWord, Split(text, ',')[j]).Some? ==>
      var places := Split(text, ',');
      && Extract(isWord, text).Some?
      && |Contributing(places[..j], LetterOf(isWord))| < |Extract(isWord, text).value|
      && Extract(isWord, text).value[|Contributing(places[..j], LetterOf(isWord))|] == ItemLetter(isWord, places[j]).value
  {
    CollectCharacterised(Split(text, ','), LetterOf(isWord));
  }

  /** A response made only of commas and whitespace, the empty one included,
      yields no password. */
  lemma OnlyCommasAndBlanks(isWord: char -> bool, text: string)
    requires forall i :: 0 <= i < |text| ==> text[i] == ',' || IsSpace(text[i])
    ensures Extract(isWord, text) == None
  {
    var places := Split(text, ',');
    SplitPartsFromString(text, ',');
    SplitNoSeparator(text, ',');
    forall j | 0 <= j < |places| ensures ItemLetter(isWord, places[j]).None? {
      forall i | 0 <= i < |places[j]| ensures IsSpace(places[j][i]) {
        assert places[j][i] in text;
        assert places[j][i] != ',';
      }
      ItemLetterAllSpace(isWord, places[j]);
    }
    ExtractCharacterised(isWord, text);
  }

  // ---------------------------------------------------------------------------
  // Responses written as a list

  /** The password of a response that is the comma-joined list `places`. */
  lemma ExtractFromList(isWord: char -> bool, places: seq<string>, text: string)
    requires |places| >= 1 && text == Join(places, ',')
    requires forall k :: 0 <= k < |places| ==> ',' !in places[k]
    ensures Split(text, ',') == places
    ensures Extract(isWord, text) == if Letters(isWord, places) == [] then None else Some(Letters(isWord, places))
  {
    SplitJoin(places, ',');
  }
}
