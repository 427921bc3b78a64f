/**
 * The level loop of play.py (`play_hackmerlin_game`) with the browser replaced
 * by a script: for each level, what the page answers to the question and what
 * it shows once the password has been submitted.
 */
module Game {
  import opened Wrappers
  import opened Text
  import opened Extractor

  /** The loop runs over levels 1 to 7. */
  const LastLevel := 7

  /** The text of the success dialog that ends the whole game. */
  const CompletionMarker := "congratulations"

  /** What the page does once a password has been extracted. */
  datatype Outcome =
      /** The password field does not appear within its wait, so nothing is
          entered. */
    | NoPasswordField
      /** The password is submitted and the success dialog with its Continue
          button appears; `closing` says how the attempt to close it went. */
    | Accepted(modalText: string, closing: Closing)
      /** The password is submitted and the notification rejects it. */
    | Rejected(notice: string)
      /** The password is submitted; one of the two appeared, but neither is
          visible when looked at. */
    | Vanished
      /** The password is submitted and neither appears within the wait. */
    | NoOutcome

  /** How closing the success dialog goes: the Continue button must become
      enabled, the forced click must reach it, and the dialog must then
      disappear. */
  datatype Closing =
    | Closed          // all three happen within their waits
    | NotEnabled      // the button does not become enabled: a failed `expect`
    | ClickTimedOut   // the click cannot reach the button: a `TimeoutError`
    | NotHidden       // the dialog stays visible: a failed `expect`

  /** One level of the script: the answer to the question (`None` when the
      question field or the answer does not arrive within its wait) and what
      the page does with the password. */
  datatype Round = Round(answer: Option<string>, outcome: Outcome)

  /** How a run ends, with the level at which it ends. */
  datatype RunEnd =
    | NoPassword(level: nat)       // the answer yields no password
    | Completed(level: nat)        // the success dialog congratulates
    | Failed(level: nat, notice: string)  // the password is rejected
    | TimedOut(level: nat)         // a wait for the page raised TimeoutError
    | Crashed(level: nat)          // another exception: a failed expect, or IndexError
    | LevelsExhausted              // all seven levels were passed

  /** The passwords submitted, in order, and how the run ended. */
  datatype Run = Run(submitted: seq<string>, end: RunEnd)

  /** What one level does: the password it submits, if any, and whether the
      run stops there. */
  datatype LevelResult = LevelResult(submission: Option<string>, stop: Option<RunEnd>)

  /** The script's round for `level`; a level beyond the script gets no
      answer. */
  function RoundAt(script: seq<Round>, level: nat): Option<Round> {
    if 1 <= level <= |script| then Some(script[level - 1]) else None
  }

  /** True when the success dialog's text announces the end of the game:
      `"congratulations" in modal_text.lower()`. */
  predicate IsCompletion(modalText: string) {
    Contains(Lower(modalText), CompletionMarker)
  }

  /** The dialog text spells the marker, in any mix of cases, at `i`. */
  ghost predicate SpellsMarkerAt(modalText: string, i: int) {
    0 <= i && i + |CompletionMarker| <= |modalText| &&
    Lower(modalText[i..i + |CompletionMarker|]) == CompletionMarker
  }

  /** The completion test ignores case: it holds exactly when some stretch
      of the dialog text spells the marker in upper, lower or mixed case. */
  lemma CompletionIgnoresCase(modalText: string)
    ensures IsCompletion(modalText) <==> exists i :: SpellsMarkerAt(modalText, i)
  {
    var lowered := Lower(modalText);
    var n := |CompletionMarker|;
    if IsCompletion(modalText) {
      var i :| 0 <= i <= |lowered| && CompletionMarker <= lowered[i..];
      assert lowered[i..][..n] == lowered[i..i + n];
      LowerSlice(modalText, i, i + n);
      assert SpellsMarkerAt(modalText, i);
    }
    if exists i :: SpellsMarkerAt(modalText, i) {
      var i :| SpellsMarkerAt(modalText, i);
      LowerSlice(modalText, i, i + n);
      assert CompletionMarker <= lowered[i..];
    }
  }

  /** One pass of the loop body; `extract` is the password extraction
      (`Extract` with Python's `\w` in the game itself). */
  function PlayLevel(extract: string -> Option<string>, round: Option<Round>, level: nat): LevelResult {
    if round.None? || round.value.answer.None? then
      LevelResult(None, Some(TimedOut(level)))
    else
      match extract(round.value.answer.value)
      case None => LevelResult(None, Some(NoPassword(level)))
      case Some(password) =>
        match round.value.outcome
        case NoPasswordField => LevelResult(None, Some(TimedOut(level)))
        // a failed `expect` raises AssertionError, caught as an unexpected error
        case NoOutcome => LevelResult(Some(password), Some(Crashed(level)))
        case Accepted(modalText, closing) =>
          // the first line of the dialog is printed first: an empty text has none
          if modalText == [] then LevelResult(Some(password), Some(Crashed(level)))
          else if IsCompletion(modalText) then LevelResult(Some(password), Some(Completed(level)))
          else (
            match closing
            case NotEnabled => LevelResult(Some(password), Some(Crashed(level)))
            case ClickTimedOut => LevelResult(Some(password), Some(TimedOut(level)))
            case NotHidden => LevelResult(Some(password), Some(Crashed(level)))
            case Closed => LevelResult(Some(password), None))
        case Rejected(notice) => LevelResult(Some(password), Some(Failed(level, notice)))
        case Vanished => LevelResult(Some(password), None)
  }

  /** What each of the levels 1 to 7 would do with its round of the script. */
  function LevelResults(extract: string -> Option<string>, script: seq<Round>): seq<LevelResult> {
    seq(LastLevel, i requires 0 <= i < LastLevel => PlayLevel(extract, RoundAt(script, i + 1), i + 1))
  }

  /** The run from `level` on, given what each level does: levels are played
      in order until one of them stops the run. */
  function RunFrom(results: seq<LevelResult>, level: nat): Run
    requires 1 <= level <= |results| + 1
    decreases |results| + 1 - level
  {
    if level > |results| then Run([], LevelsExhausted)
    else
      var result := results[level - 1];
      var sent := if result.submission.Some? then [result.submission.value] else [];
      if result.stop.Some? then Run(sent, result.stop.value)
      else
        var rest := RunFrom(results, level + 1);
        Run(sent + rest.submitted, rest.end)
  }

  /** One level of `RunFrom`, seen from a run that has already submitted
      `before`. */
  lemma RunFromStep(results: seq<LevelResult>, level: nat, before: seq<string>)
    requires 1 <= level <= |results|
    ensures var result := results[level - 1];
      var sent := if result.submission.Some? then [result.submission.value] else [];
      var rest := RunFrom(results, level + 1);
      Run(before + RunFrom(results, level).submitted, RunFrom(results, level).end) ==
        if result.stop.Some? then Run(before + sent, result.stop.value)
        else Run((before + sent) + rest.submitted, rest.end)
  {
    var result := results[level - 1];
    var sent := if result.submission.Some? then [result.submission.value] else [];
    var rest := RunFrom(results, level + 1);
    assert before + (sent + rest.submitted) == (before + sent) + rest.submitted;
  }

  /** The whole run. */
  function Play(extract: string -> Option<string>, script: seq<Round>): Run {
    RunFrom(LevelResults(extract, script), 1)
  }

  /** The loop of `play_hackmerlin_game`: play the levels in order, leaving
      the loop on the first level that stops the run. */
  method PlayGame(isWord: char -> bool, script: seq<Round>) returns (submitted: seq<string>, end: RunEnd)
    ensures Run(submitted, end) == Play(PasswordExtraction(isWord), script)
  {
    ghost var results := LevelResults(PasswordExtraction(isWord), script);
    assert |results| == LastLevel;
    submitted := [];
    end := LevelsExhausted;
    for level := 1 to LastLevel + 1
      invariant Play(PasswordExtraction(isWord), script) == Run(submitted + RunFrom(results, level).submitted, RunFrom(results, level).end)
    {
      var submission, stop := PlayRound(isWord, RoundAt(script, level), level);
      assert results[level - 1] == LevelResult(submission, stop);
      var sent := if submission.Some? then [submission.value] else [];
      RunFromStep(results, level, submitted);
      submitted := submitted + sent;
      if stop.Some? {
        end := stop.value;
        break;
      }
    }
  }

  /** The body of the loop for one level: ask the question, extract the
      password, submit it and react to the outcome. */
  method PlayRound(isWord: char -> bool, round: Option<Round>, level: nat)
    returns (submission: Option<string>, stop: Option<RunEnd>)
    ensures LevelResult(submission, stop) == PlayLevel(PasswordExtraction(isWord), round, level)
  {
    // 1. ask the question
    if round.None? || round.value.answer.None? {
      return None, Some(TimedOut(level));
    }
    // 2. extract the password
    var password := ExtractPassword(isWord, round.value.answer.value);
    if password.None? {
      return None, Some(NoPassword(level));
    }
    // 3. submit it, once the password field is there
    if round.value.outcome.NoPasswordField? {
      return None, Some(TimedOut(level));
    }
    submission := Some(password.value);
    // 4. react to the outcome
    match round.value.outcome
    case NoOutcome =>
      stop := Some(Crashed(level));
    case Accepted(modalText, closing) =>
      if modalText == [] {
        stop := Some(Crashed(level));
      } else if IsCompletion(modalText) {
        stop := Some(Completed(level));
      } else if closing.NotEnabled? {
        stop := Some(Crashed(level));
      } else if closing.ClickTimedOut? {
        stop := Some(TimedOut(level));
      } else if closing.NotHidden? {
        stop := Some(Crashed(level));
      } else {
        stop := None;
      }
    case Rejected(notice) =>
      stop := Some(Failed(level, notice));
    case Vanished =>
      stop := None;
    case NoPasswordField =>
      assert false;
  }

  // ---------------------------------------------------------------------------
  // One level

  /** A level that does not stop the run has submitted the password its
      answer yields; a level that stops it ends the run at that very level;
      a level that finds no password submits nothing. */
  lemma PlayLevelShape(extract: string -> Option<string>, round: Option<Round>, level: nat)
    ensures var result := PlayLevel(extract, round, level);
      && (result.stop.None? ==>
            round.Some? && round.value.answer.Some?
            && result.submission.Some? && extract(round.value.answer.value) == result.submission)
      && (result.submission.Some? ==>
            round.Some? && round.value.answer.Some? && extract(round.value.answer.value) == result.submission)
      && (result.stop.Some? ==> !result.stop.value.LevelsExhausted? && result.stop.value.level == level)
      && (result.stop.Some? && result.stop.value.NoPassword? ==>
            result.submission.None? && round.Some? && round.value.answer.Some?
            && extract(round.value.answer.value).None?)
  {
  }

  /** A level whose answer yields no password stops the run there, before
      anything is submitted. */
  lemma NoPasswordNoSubmission(extract: string -> Option<string>, round: Round, level: nat)
    requires round.answer.Some? && extract(round.answer.value).None?
    ensures PlayLevel(extract, Some(round), level) == LevelResult(None, Some(NoPassword(level)))
  {
  }

  /** Once a password is extracted: a missing password field ends the run
      with nothing submitted; otherwise the password is submitted, and a
      rejection ends the run with the notice, a success dialog announcing the
      end of the game ends it as completed, one without that marker lets the
      run go on once closed, ends it as timed out when the click cannot reach
      its button and as crashed when the button stays disabled or the dialog
      stays open, and no outcome at all ends it. */
  lemma SubmittedOutcome(extract: string -> Option<string>, round: Round, level: nat, password: string)
    requires round.answer.Some? && extract(round.answer.value) == Some(password)
    ensures round.outcome.NoPasswordField? ==>
      PlayLevel(extract, Some(round), level) == LevelResult(None, Some(TimedOut(level)))
    ensures round.outcome.NoOutcome? ==>
      PlayLevel(extract, Some(round), level) == LevelResult(Some(password), Some(Crashed(level)))
    ensures round.outcome.Rejected? ==>
      PlayLevel(extract, Some(round), level) == LevelResult(Some(password), Some(Failed(level, round.outcome.notice)))
    ensures round.outcome.Accepted? && round.outcome.modalText != [] && IsCompletion(round.outcome.modalText) ==>
      PlayLevel(extract, Some(round), level) == LevelResult(Some(password), Some(Completed(level)))
    ensures round.outcome.Accepted? && round.outcome.modalText != [] && !IsCompletion(round.outcome.modalText)
            && round.outcome.closing.Closed? ==>
      PlayLevel(extract, Some(round), level) == LevelResult(Some(password), None)
    ensures round.outcome.Accepted? && round.outcome.modalText != [] && !IsCompletion(round.outcome.modalText)
            && round.outcome.closing.ClickTimedOut? ==>
      PlayLevel(extract, Some(round), level) == LevelResult(Some(password), Some(TimedOut(level)))
    ensures round.outcome.Accepted? && round.outcome.modalText != [] && !IsCompletion(round.outcome.modalText)
            && (round.outcome.closing.NotEnabled? || round.outcome.closing.NotHidden?) ==>
      PlayLevel(extract, Some(round), level) == LevelResult(Some(password), Some(Crashed(level)))
  {
  }

  // ---------------------------------------------------------------------------
  // Whole runs (levels are numbered from 1, `results` is indexed from 0)

  /** A run submits at most one password per level it plays, and ends either
      with all levels passed or with the stop of one of those levels. */
  lemma {:induction false} RunFromEnd(results: seq<LevelResult>, level: nat)
    requires 1 <= level <= |results| + 1
    ensures |RunFrom(results, level).submitted| <= |results| + 1 - level
    ensures RunFrom(results, level).end.LevelsExhausted? ||
      exists i :: level - 1 <= i < |results| && results[i].stop == Some(RunFrom(results, level).end)
    decreases |results| + 1 - level
  {
    if level <= |results| && results[level - 1].stop.None? {
      RunFromEnd(results, level + 1);
    }
  }

  /** A run that does not pass all levels ends at a first level that stops
      it. */
  lemma {:induction false} RunFromFirstStop(results: seq<LevelResult>, level: nat)
    requires 1 <= level <= |results| + 1
    requires !RunFrom(results, level).end.LevelsExhausted?
    ensures exists k :: level - 1 <= k < |results| && results[k].stop.Some? &&
                        (forall i :: level - 1 <= i < k ==> results[i].stop.None?)
    decreases |results| + 1 - level
  {
    if results[level - 1].stop.None? {
      RunFromFirstStop(results, level + 1);
    }
  }

  /** The run stops at the first level that stops it (index `k`): the levels
      before it submitted one password each, in order, and that level adds
      its own submission, if any. */
  lemma {:induction false} RunFromStopsAt(results: seq<LevelResult>, level: nat, k: nat)
    requires 1 <= level && level - 1 <= k < |results|
    requires results[k].stop.Some?
    requires forall i :: level - 1 <= i < k ==> results[i].stop.None? && results[i].submission.Some?
    ensures RunFrom(results, level).end == results[k].stop.value
    ensures |RunFrom(results, level).submitted| == k + 1 - level + (if results[k].submission.Some? then 1 else 0)
    ensures forall i :: level - 1 <= i < k ==>
      RunFrom(results, level).submitted[i + 1 - level] == results[i].submission.value
    ensures results[k].submission.Some? ==>
      RunFrom(results, level).submitted[k + 1 - level] == results[k].submission.value
    decreases k + 1 - level
  {
    if level - 1 < k {
      RunFromStopsAt(results, level + 1, k);
      var rest := RunFrom(results, level + 1);
      assert RunFrom(results, level).submitted == [results[level - 1].submission.value] + rest.submitted;
    }
  }

  /** When no level stops the run, every level submits one password and all
      levels are passed. */
  lemma {:induction false} RunFromPassesAll(results: seq<LevelResult>, level: nat)
    requires 1 <= level <= |results| + 1
    requires forall i :: level - 1 <= i < |results| ==> results[i].stop.None? && results[i].submission.Some?
    ensures RunFrom(results, level).end == LevelsExhausted
    ensures |RunFrom(results, level).submitted| == |results| + 1 - level
    ensures forall i :: level - 1 <= i < |results| ==>
      RunFrom(results, level).submitted[i + 1 - level] == results[i].submission.value
    decreases |results| + 1 - level
  {
    if level <= |results| {
      RunFromPassesAll(results, level + 1);
      var rest := RunFrom(results, level + 1);
      assert RunFrom(results, level).submitted == [results[level - 1].submission.value] + rest.submitted;
    }
  }

  /** Every password a run submits is the submission of one of the levels
      it played. */
  lemma {:induction false} SubmissionsFrom(results: seq<LevelResult>, level: nat)
    requires 1 <= level <= |results| + 1
    ensures forall s :: s in RunFrom(results, level).submitted ==>
      exists i :: level - 1 <= i < |results| && results[i].submission == Some(s)
    decreases |results| + 1 - level
  {
    if level <= |results| && results[level - 1].stop.None? {
      SubmissionsFrom(results, level + 1);
    }
  }

  /** At most seven levels are played, at most one password is submitted per
      level, and a run that stops early stops at a level between 1 and 7. */
  lemma PlayBounds(extract: string -> Option<string>, script: seq<Round>)
    ensures |Play(extract, script).submitted| <= LastLevel
    ensures !Play(extract, script).end.LevelsExhausted? ==> 1 <= Play(extract, script).end.level <= LastLevel
  {
    var results := LevelResults(extract, script);
    RunFromEnd(results, 1);
    if !Play(extract, script).end.LevelsExhausted? {
      var i :| 0 <= i < LastLevel && results[i].stop == Some(Play(extract, script).end);
      PlayLevelShape(extract, RoundAt(script, i + 1), i + 1);
    }
  }

  /** The run of a script ends at the first level `k` whose round stops it;
      each earlier level submitted the password extracted from its answer,
      in level order, and level `k` adds the one it submitted, if any. */
  lemma PlayStopsAt(extract: string -> Option<string>, script: seq<Round>, k: nat)
    requires 1 <= k <= LastLevel
    requires PlayLevel(extract, RoundAt(script, k), k).stop.Some?
    requires forall j :: 1 <= j < k ==> PlayLevel(extract, RoundAt(script, j), j).stop.None?
    ensures Play(extract, script).end == PlayLevel(extract, RoundAt(script, k), k).stop.value
    ensures Play(extract, script).end.level == k
    ensures |Play(extract, script).submitted| == k - 1 + (if PlayLevel(extract, RoundAt(script, k), k).submission.Some? then 1 else 0)
    ensures PlayLevel(extract, RoundAt(script, k), k).submission.Some? ==>
      Play(extract, script).submitted[k - 1] == PlayLevel(extract, RoundAt(script, k), k).submission.value
    ensures k - 1 <= |script|
    ensures forall i :: 0 <= i < k - 1 ==>
      script[i].answer.Some? && extract(script[i].answer.value) == Some(Play(extract, script).submitted[i])
  {
    var results := LevelResults(extract, script);
    forall i | 0 <= i < k - 1
      ensures results[i].stop.None? && results[i].submission.Some?
    {
      PlayLevelShape(extract, RoundAt(script, i + 1), i + 1);
    }
    RunFromStopsAt(results, 1, k - 1);
    PlayLevelShape(extract, RoundAt(script, k), k);
    if 1 < k {
      PlayLevelShape(extract, RoundAt(script, k - 1), k - 1);
    }
    forall i | 0 <= i < k - 1
      ensures script[i].answer.Some? &&
        extract(script[i].answer.value) == Some(Play(extract, script).submitted[i])
    {
      PlayLevelShape(extract, RoundAt(script, i + 1), i + 1);
      assert Play(extract, script).submitted[i] == results[i].submission.value;
    }
  }

  /** A run in which no level stops passes all seven levels, submitting the
      password of each level's answer. */
  lemma PlayPassesAll(extract: string -> Option<string>, script: seq<Round>)
    requires forall j :: 1 <= j <= LastLevel ==> PlayLevel(extract, RoundAt(script, j), j).stop.None?
    ensures Play(extract, script).end == LevelsExhausted
    ensures |Play(extract, script).submitted| == LastLevel
    ensures LastLevel <= |script|
    ensures forall i :: 0 <= i < LastLevel ==>
      script[i].answer.Some? && extract(script[i].answer.value) == Some(Play(extract, script).submitted[i])
  {
    var results := LevelResults(extract, script);
    forall i | 0 <= i < LastLevel
      ensures results[i].stop.None? && results[i].submission.Some?
    {
      PlayLevelShape(extract, RoundAt(script, i + 1), i + 1);
    }
    RunFromPassesAll(results, 1);
    PlayLevelShape(extract, RoundAt(script, LastLevel), LastLevel);
    forall i | 0 <= i < LastLevel
      ensures script[i].answer.Some? &&
        extract(script[i].answer.value) == Some(Play(extract, script).submitted[i])
    {
      PlayLevelShape(extract, RoundAt(script, i + 1), i + 1);
      assert Play(extract, script).submitted[i] == results[i].submission.value;
    }
  }

  /** A run that does not pass all seven levels stops at a first level whose
      round stops it. */
  lemma PlayFirstStop(extract: string -> Option<string>, script: seq<Round>)
    requires !Play(extract, script).end.LevelsExhausted?
    ensures exists k :: 1 <= k <= LastLevel && PlayLevel(extract, RoundAt(script, k), k).stop.Some? &&
                        (forall j :: 1 <= j < k ==> PlayLevel(extract, RoundAt(script, j), j).stop.None?)
  {
    var results := LevelResults(extract, script);
    RunFromFirstStop(results, 1);
    var k :| 0 <= k < LastLevel && results[k].stop.Some? && forall i :: 0 <= i < k ==> results[i].stop.None?;
    assert forall j :: 1 <= j < k + 1 ==> results[j - 1] == PlayLevel(extract, RoundAt(script, j), j);
  }

  /** A run that ends because an answer yields no password submitted nothing
      at that level: one password for each earlier level. */
  lemma NoPasswordEndsBeforeSubmit(extract: string -> Option<string>, script: seq<Round>)
    requires Play(extract, script).end.NoPassword?
    ensures |Play(extract, script).submitted| == Play(extract, script).end.level - 1
    ensures var k := Play(extract, script).end.level;
      1 <= k <= |script| && script[k - 1].answer.Some? && extract(script[k - 1].answer.value).None?
  {
    PlayFirstStop(extract, script);
    var k :| 1 <= k <= LastLevel && PlayLevel(extract, RoundAt(script, k), k).stop.Some? &&
             (forall j :: 1 <= j < k ==> PlayLevel(extract, RoundAt(script, j), j).stop.None?);
    PlayStopsAt(extract, script, k);
    PlayLevelShape(extract, RoundAt(script, k), k);
  }

  /** A success dialog without the completion marker that closes in time
      moves the run on to exactly the next level, with this level's password
      submitted. */
  lemma AdvanceToNextLevel(extract: string -> Option<string>, script: seq<Round>, level: nat, password: string)
    requires 1 <= level <= LastLevel && level <= |script|
    requires script[level - 1].answer.Some? && extract(script[level - 1].answer.value) == Some(password)
    requires script[level - 1].outcome.Accepted? && script[level - 1].outcome.closing.Closed?
    requires script[level - 1].outcome.modalText != [] && !IsCompletion(script[level - 1].outcome.modalText)
    ensures var results := LevelResults(extract, script);
      RunFrom(results, level) ==
        Run([password] + RunFrom(results, level + 1).submitted, RunFrom(results, level + 1).end)
  {
    SubmittedOutcome(extract, script[level - 1], level, password);
  }

  /** Every password a run submits is one that `extract` returned: when
      `extract` never returns an empty password, no empty one is
      submitted. */
  lemma SubmittedNonEmpty(extract: string -> Option<string>, script: seq<Round>)
    requires forall text :: extract(text) != Some([])
    ensures forall i :: 0 <= i < |Play(extract, script).submitted| ==>
      Play(extract, script).submitted[i] != []
  {
    var results := LevelResults(extract, script);
    forall i | 0 <= i < LastLevel
      ensures results[i].submission.Some? ==> results[i].submission.value != []
    {
      PlayLevelShape(extract, RoundAt(script, i + 1), i + 1);
    }
    SubmissionsFrom(results, 1);
  }

  /** The game never submits an empty password: every submission is a
      password the extraction returned, and extraction never returns an
      empty one. */
  lemma SubmittedPasswordsNonEmpty(isWord: char -> bool, script: seq<Round>)
    ensures forall i :: 0 <= i < |Play(PasswordExtraction(isWord), script).submitted| ==>
      Play(PasswordExtraction(isWord), script).submitted[i] != []
  {
    var extract := PasswordExtraction(isWord);
    forall text
      ensures extract(text) != Some([])
    {
      assert extract(text) == Extract(isWord, text);
    }
    SubmittedNonEmpty(extract, script);
  }
}
