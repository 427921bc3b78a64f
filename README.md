# HackMerlin password extraction and level loop, in Dafny

`play.py` plays the HackMerlin web game. On each of levels 1 to 7 it asks the
game's chatbot for a comma-separated list of places, one per letter of the
secret. It builds a password from that answer, submits it, and reads the
outcome. `extract_password_from_response` builds the password. It splits
the answer at commas and strips each item. An item contributes the first
character of its leading word (`^\w+`) when that word has at least two
characters; the password is the contributed letters in order, or `None` when
there are none. The level loop stops at the first level where:

- the question field or the answer does not arrive in time (a `TimeoutError`);
- no password can be extracted;
- the password field does not appear in time (a `TimeoutError`, nothing submitted);
- the password is rejected;
- the success dialog says "congratulations";
- an `expect` on the dialog or notification fails (an `AssertionError`), or the
  dialog text is empty (an `IndexError`); both are caught as unexpected errors.

This project models both parts in Dafny:

- `text.dfy`: the Python built-ins the extractor relies on (`split`,
  `strip`, `^\w+`, `lower`, `in`).
- `extractor.dfy`: the extractor, as a function and as the loop the
  source runs.
- `game.dfy`: the level loop. The browser is replaced by a script that
  gives, per level, the answer to the question and what the page does with
  the password.
- `extractor_examples.dfy`: the documented example, blank answers and a
  name with a non-ASCII letter.
- `wrappers.dfy`: the `Option` type.

The class `\w` is Unicode-wide in Python. Its table is not written out:
every operation that matches `\w` takes it as a parameter `isWord`, so the
lemmas about the extractor hold for Python's own class. The worked examples
assume only what Python's class satisfies: it agrees with `[A-Za-z0-9_]` on
ASCII and holds of no whitespace character.

The game's functions take the extraction as a parameter `extract`. The
loop itself (`Game.PlayGame`) runs with `Extractor.PasswordExtraction(isWord)`.
Lemmas stated for any `extract` therefore hold for the real extractor.

## Model

| member | source | states |
|---|---|---|
| Text.IsSpace | play.py:19 | the characters `strip()` removes: exactly those for which `str.isspace()` holds |
| Text.IsAsciiWordChar | play.py:24 | the class `\w` on ASCII: letters, digits and the underscore |
| Text.AgreesWithWordOnAscii | play.py:24 | a word class agrees with `\w` on every ASCII character |
| Text.ExcludesSpace | play.py:24 | a word class, like `\w`, holds of no whitespace character |
| Text.Split | play.py:14 | `text.split(',')` always gives at least one piece, even for the empty text |
| Text.SplitNoSeparator | play.py:14 | no piece of the split contains a comma |
| Text.SplitCount | play.py:14 | the split has one more piece than the text has commas |
| Text.Join | play.py:14 | the inverse of `split(',')`: the pieces written out with a comma between neighbours |
| Text.JoinSplit | play.py:14 | joining the pieces back with commas gives the original text (nothing is lost) |
| Text.SplitJoin | play.py:14 | splitting a comma-joined list of comma-free items gives exactly those items |
| Text.SplitPartsFromString | play.py:14 | every character of every piece comes from the text |
| Text.LeadingSpaces | play.py:19 | the length of the whitespace run `strip()` removes at the start; at most the length of the item |
| Text.TrailingSpaces | play.py:19 | the length of the whitespace run `strip()` removes at the end; at most the length of the item |
| Text.Strip | play.py:19 | `place.strip()`: the item without those two runs |
| Text.LeadingSpacesSpec | play.py:19 | the leading-whitespace count covers exactly the whitespace run at the start |
| Text.TrailingSpacesSpec | play.py:19 | the trailing-whitespace count covers exactly the whitespace run at the end |
| Text.StripWindow | play.py:19 | `strip()` keeps the window of the item between its leading and trailing whitespace |
| Text.StripTrailing | play.py:19 | only whitespace follows the stripped window |
| Text.StripEnds | play.py:19 | a non-empty stripped item starts and ends with a non-whitespace character |
| Text.StripSpec | play.py:19-21 | `strip()` is that window, with only whitespace around it; it is empty exactly when the item is all whitespace |
| Text.LeadingWord | play.py:24 | the run of word characters at the start of the stripped item; never longer than the item |
| Text.MatchLeadingWord | play.py:24-27 | `re.search(r'^\w+', cleaned_place)`: no match for an empty run, otherwise a match whose text is never empty |
| Text.LeadingWordSpec | play.py:24 | the leading word is a prefix of word characters that cannot be extended |
| Text.MatchLeadingWordSpec | play.py:24-27 | `^\w+` fails exactly when the text is empty or starts with a non-word character; otherwise it matches the maximal leading run of word characters |
| Text.LowerChar | play.py:101 | `lower()` of one character |
| Text.Lower | play.py:101 | `modal_text.lower()`, character by character, keeping the length |
| Text.Contains | play.py:101 | the substring test `"congratulations" in ...` |
| Text.LowerSpec | play.py:101 | `lower()` maps each character on its own and keeps the length |
| Text.LowerSlice | play.py:101 | lowering a slice is slicing the lowered text |
| Extractor.ItemLetter | play.py:19-31 | the letter one item contributes; when there is one, it is a word character |
| Extractor.LetterOf | play.py:19-31 | `ItemLetter` for a given word class, as a function of the item |
| Extractor.OptionalLetter | play.py:29-31 | the zero or one letter an item appends to `password_letters` |
| Extractor.Collect | play.py:16-31 | the list `password_letters` after the loop, for any per-item letter function |
| Extractor.Letters | play.py:16-31 | the letters of the items, in order, for the word class `isWord` |
| Extractor.Extract | play.py:33-36 | the extractor never returns an empty password: a non-empty letter list or `None` |
| Extractor.PasswordExtraction | play.py:5-36 | `Extract` for a given word class, as a function of the response: the extraction the game uses |
| Extractor.ExtractPassword | play.py:5-36 | the loop over the comma-separated items computes `Extract`, and its result is never an empty password |
| Extractor.ItemLetterCharacterised | play.py:18-31 | for a word class that excludes whitespace, an item contributes a letter exactly when its first non-blank character and the next one are word characters, and the letter is that first non-blank character |
| Extractor.StripAt | play.py:19 | the stripped item starts at the first non-blank character, and is at least two long when the next character is not blank |
| Extractor.ItemLetterAllSpace | play.py:19-22 | a blank item is skipped |
| Extractor.Contributing | play.py:18-31 | the positions of the items that contribute a letter |
| Extractor.CollectSnoc | play.py:18-31 | one more item appends its letter, if any, at the end |
| Extractor.CollectAppend | play.py:18-31 | the letters of two lists one after the other are the letters of each |
| Extractor.CollectCount | play.py:18-31 | there is one letter per contributing item |
| Extractor.CollectAt | play.py:18-31 | the letter of item `j` follows one letter for each earlier contributing item |
| Extractor.CollectCharacterised | play.py:18-36 | the letter list is empty exactly when no item contributes; otherwise it has one letter per contributing item, each at the place its order gives it |
| Extractor.SkippedItem | play.py:21-30 | removing an item that contributes nothing leaves the password unchanged |
| Extractor.ExtractCharacterised | play.py:5-36 | `None` exactly when no item of the split answer contributes; otherwise the password has one letter per contributing item, in item order |
| Extractor.OnlyCommasAndBlanks | play.py:14-36 | an answer of only commas and whitespace, the empty one included, yields `None` |
| Extractor.ExtractFromList | play.py:14-36 | for an answer that is a comma-joined list of comma-free items, the split gives those items and the password is their letters |
| ExtractorExamples.DocJoin | play.py:10 | the documented example answer is its four items joined with commas |
| ExtractorExamples.DocSplit | play.py:10 | splitting the documented example gives its four items |
| ExtractorExamples.DocFirstItem | play.py:10 | "New Zealand" contributes `N` |
| ExtractorExamples.DocSecondItem | play.py:10 | " United Kingdom" contributes `U` |
| ExtractorExamples.DocShortItems | play.py:10 | " A" and " B" are too short and contribute nothing |
| ExtractorExamples.CollectFour | play.py:18-31 | the letters of a four-item list, item by item |
| ExtractorExamples.DocLetters | play.py:10 | the example's items give the letters "NU" |
| ExtractorExamples.DocExtract | play.py:10 | the example's password is the letters of its items |
| ExtractorExamples.DocExample | play.py:10 | "New Zealand, United Kingdom, A, B" gives "NU" |
| ExtractorExamples.BlankAnswers | play.py:33-36 | the empty answer and an answer of blank items give `None` |
| ExtractorExamples.NonAsciiLetterInWord | play.py:24-31 | "Türkiye" contributes `T` when the word class, like Python's `\w`, matches `ü` |
| Game.RoundAt | play.py:54-69 | the script's round for a level; a level beyond the script gets no answer |
| Game.IsCompletion | play.py:101 | `"congratulations" in modal_text.lower()` |
| Game.PlayLevel | play.py:57-117 | one pass of the loop body: no answer is a `TimeoutError`; no password stops before submitting; a missing password field is a `TimeoutError` with nothing submitted; after the submission, no outcome is a failed `expect` (`Crashed`), an empty dialog text is an `IndexError` (`Crashed`), "congratulations" completes, a Continue button that stays disabled or a dialog that stays open is a failed `expect` (`Crashed`), a click that cannot reach the button is a `TimeoutError` (`TimedOut`), a rejection fails, and a closed dialog or a vanished indicator goes on |
| Game.LevelResults | play.py:54-117 | what each of levels 1 to 7 does with its round of the script |
| Game.RunFrom | play.py:54-117 | the levels played in order from a given one until one stops the run, with the passwords submitted on the way |
| Game.Play | play.py:54-117 | the whole run from level 1 |
| Game.CompletionIgnoresCase | play.py:101 | the completion test holds exactly when some stretch of the dialog text spells "congratulations" in any mix of cases |
| Game.RunFromStep | play.py:54-117 | one level of a run: it adds its submission, then either stops the run or hands on to the next level |
| Game.PlayGame | play.py:54-117 | the loop over levels 1 to 7 submits exactly the passwords of `Play` and ends as `Play` ends |
| Game.PlayRound | play.py:57-117 | one pass of the loop body behaves as `PlayLevel`: question, extraction, submission, outcome |
| Game.PlayLevelShape | play.py:57-117 | a level that lets the run go on has submitted the password its answer yields; a stopping level stops at its own number; a level without a password submits nothing |
| Game.NoPasswordNoSubmission | play.py:72-75 | an answer without a password stops the run at that level with nothing submitted |
| Game.SubmittedOutcome | play.py:78-117 | after the extraction: a missing password field ends the run as timed out with nothing submitted; otherwise the password is submitted, and no outcome ends the run as crashed, a rejection as failed with the notice, a dialog saying "congratulations" as completed; a dialog without it goes on once closed, ends as timed out when the click on Continue times out, and as crashed when the button stays disabled or the dialog stays open |
| Game.RunFromEnd | play.py:54-117 | a run submits at most one password per level it plays and ends either with all levels passed or with the stop of one of them |
| Game.RunFromFirstStop | play.py:54-117 | a run that does not pass all levels has a first stopping level |
| Game.RunFromStopsAt | play.py:54-117 | the run ends with the stop of the first stopping level; the earlier levels submitted one password each, in order |
| Game.RunFromPassesAll | play.py:54-117 | with no stopping level, every level submits one password and all levels are passed |
| Game.SubmissionsFrom | play.py:54-117 | every submitted password is the submission of one of the levels played |
| Game.PlayBounds | play.py:54 | at most seven passwords are submitted, and a run that stops early stops at a level from 1 to 7 |
| Game.PlayStopsAt | play.py:54-117 | the game ends at the first level whose round stops it, each earlier level submitted the password extracted from its answer, in level order, and the stopping level's own submission, if any, comes last |
| Game.PlayPassesAll | play.py:54-117 | when no level stops the run, all seven levels are passed and each submits its answer's password |
| Game.PlayFirstStop | play.py:54-117 | a game that does not pass all seven levels has a first stopping level |
| Game.NoPasswordEndsBeforeSubmit | play.py:72-75 | a game that ends for lack of a password submitted nothing at that level: exactly one password per earlier level, and that level's answer yields no password |
| Game.AdvanceToNextLevel | play.py:94-111 | a success dialog without "congratulations" that closes in time moves the run to exactly the next level, after this level's password |
| Game.SubmittedNonEmpty | play.py:72-83 | a run only submits passwords the extraction returned, so none is empty when the extraction never returns an empty one |
| Game.SubmittedPasswordsNonEmpty | play.py:72-83 | the game never submits an empty password, whatever the word class |

## Left out

- The browser (Playwright): the page, its selectors, the filling of fields and the key presses are left out. Per level, a `Game.Round` in the script stands in for the answer to the question and for what the page does with the password.
- Timeouts and assertion failures are outcomes in the script. The waits that raise `TimeoutError` are the question field, the answer (`answer == None`) and the password field (`NoPasswordField`, nothing submitted): they end the run as `TimedOut`. The `expect` checks on the outcome raise `AssertionError`, which the generic handler catches: no outcome (`NoOutcome`), a Continue button that does not become enabled (`NotEnabled`) and a dialog that stays visible after the click (`NotHidden`) end the run as `Crashed`, like the `IndexError` of `modal_text.splitlines()[0]` for an empty dialog text. The forced click on Continue waits for its button and raises `TimeoutError` when it cannot reach it (`ClickTimedOut`): that ends the run as `TimedOut`. Other errors raised inside the browser library are not modelled.
- The case of the failure-notice text and the regular expression used to find it are not modelled. `Rejected` stands for "the failure notification is visible and the success dialog is not".
- Printing, `time.sleep` and the closing of the browser in `finally` are left out; none of them affects which passwords are submitted or how the run ends.
- Python's Unicode table for `\w` (every character for which `str.isalnum()` holds, and `_`) is not written out; it is the parameter `isWord`. The lemmas hold for every word class. The examples use only its ASCII part and that it excludes whitespace, plus `isWord('ü')` for "Türkiye".
- Text.Lower, Text.LowerChar: `lower()` is modelled for ASCII letters only. Outside ASCII, only U+0130 and U+212A lower to ASCII letters: U+0130 becomes `i` followed by a combining dot, and U+212A becomes `k`, which is not in "congratulations". Neither can complete a match the model misses, so the completion test is exact.
- The question text sent to the chatbot and the chatbot itself are outside the model; its answers are inputs.
