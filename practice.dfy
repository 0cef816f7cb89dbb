/**
 * The practice screen: when an attempt counts as complete, which character
 * is expected next and the Array30 hint shown for it, how each target
 * character is coloured, how a code is displayed, and what the input,
 * Reset and Next handlers do to the session and the history.
 */
module Practice {
  import opened Wrappers
  import opened Text
  import opened Typing
  import opened Storage
  import opened CharDef

  // ---------------------------------------------------------------------
  // Completion
  // ---------------------------------------------------------------------

  /** The completion test of the input handler: same length as a non-empty target, and every character equal. */
  function IsComplete(target: string, input: string): (r: bool)
    ensures r <==> |target| > 0 && input == target
  {
    |target| > 0 && |input| == |target| && forall i :: 0 <= i < |input| ==> input[i] == target[i]
  }

  /**
   * The counters set just before the test agree with it: a complete attempt
   * has every character typed correctly and no error, and an attempt on a
   * non-empty target with as many correct characters as typed ones, and as
   * many as the target has, is complete.
   */
  lemma CompleteIffPerfect(target: string, input: string, elapsedMs: nat)
    ensures IsComplete(target, input) <==>
      |target| > 0 &&
      StatsFor(target, input, elapsedMs).charactersTyped == StatsFor(target, input, elapsedMs).totalTyped == |target|
    ensures IsComplete(target, input) ==> StatsFor(target, input, elapsedMs).errors == 0
  {
    MatchCountFull(input, target);
  }

  // ---------------------------------------------------------------------
  // The next expected character and its hint
  // ---------------------------------------------------------------------

  /** The number of leading positions at which the input agrees with the target. */
  function MatchedPrefix(input: string, target: string): (k: nat)
    ensures k <= |input| && k <= |target|
    ensures input[..k] == target[..k]
    ensures k < |input| && k < |target| ==> input[k] != target[k]
  {
    if input == [] || target == [] || input[0] != target[0] then 0
    else
      var k := 1 + MatchedPrefix(input[1..], target[1..]);
      assert input[..k] == [input[0]] + input[1..][..k - 1];
      assert target[..k] == [target[0]] + target[1..][..k - 1];
      k
  }

  /** No longer common prefix exists. */
  lemma MatchedPrefixLongest(input: string, target: string, j: nat)
    requires j <= |input| && j <= |target| && input[..j] == target[..j]
    ensures j <= MatchedPrefix(input, target)
  {
  }

  /** Every position of the common prefix is counted as correctly typed. */
  lemma {:induction false} MatchedPrefixAtMostMatches(input: string, target: string)
    ensures MatchedPrefix(input, target) <= MatchCount(input, target)
  {
    if input != [] && target != [] && input[0] == target[0] {
      MatchedPrefixAtMostMatches(input[1..], target[1..]);
    }
  }

  /** The next expected character: the target's character just past the common prefix, if any. */
  function NextChar(input: string, target: string): (r: Option<char>)
    ensures r.Some? <==> MatchedPrefix(input, target) < |target|
    ensures r.Some? ==> r.value == target[MatchedPrefix(input, target)]
    ensures r.None? <==> |target| <= |input| && input[..|target|] == target
  {
    var k := MatchedPrefix(input, target);
    if k < |target| then Some(target[k])
    else
      assert target == target[..k];
      None
  }

  /** A complete attempt has no next character. */
  lemma CompleteHasNoNextChar(target: string, input: string)
    requires IsComplete(target, input)
    ensures NextChar(input, target) == None
  {
  }

  /** What the hint box shows. */
  datatype Hint =
    | CodeHint(c: char, code: string)   // the character and its Array30 codes
    | CharHint(c: char)                 // the character, which has no table entry
    | ExerciseComplete

  /** The hint box for `input` against `target`, with codes from `table`. */
  function HintFor(table: seq<(char, string)>, input: string, target: string): (h: Hint)
    ensures h.ExerciseComplete? <==> NextChar(input, target).None?
    ensures h.CodeHint? ==> NextChar(input, target) == Some(h.c) && Lookup(table, h.c) == Some(h.code)
    ensures h.CharHint? ==> NextChar(input, target) == Some(h.c) && Lookup(table, h.c) == None
  {
    match NextChar(input, target)
    case None => ExerciseComplete
    case Some(c) =>
      match Lookup(table, c)
      case Some(code) => CodeHint(c, code)
      case None => CharHint(c)
  }

  /** With the generated table, a hint shows codes exactly for a character the input method file maps, namely its codes. */
  lemma HintFromGeneratedTable(lines: seq<string>, input: string, target: string)
    requires NextChar(input, target).Some?
    ensures HintFor(Table(lines), input, target).CodeHint? <==>
      NextChar(input, target).value in Parse(lines).codes
    ensures HintFor(Table(lines), input, target).CodeHint? ==>
      HintFor(Table(lines), input, target).code == CodeList(Parse(lines).codes[NextChar(input, target).value])
  {
    GeneratedLookup(lines, NextChar(input, target).value);
  }

  // ---------------------------------------------------------------------
  // Per-character colouring
  // ---------------------------------------------------------------------

  datatype CharClass = Correct | Incorrect | Untyped

  /** The class of target position `i`. */
  function ClassAt(target: string, input: string, i: nat): (k: CharClass)
    requires i < |target|
    ensures k == Untyped <==> i >= |input|
    ensures k == Correct <==> i < |input| && input[i] == target[i]
  {
    if i < |input| then (if input[i] == target[i] then Correct else Incorrect) else Untyped
  }

  /** One class per target character. */
  function Classes(target: string, input: string): (ks: seq<CharClass>)
    ensures |ks| == |target|
    ensures forall i :: 0 <= i < |target| ==> ks[i] == ClassAt(target, input, i)
  {
    seq(|target|, i requires 0 <= i < |target| => ClassAt(target, input, i))
  }

  /** The number of `Correct` entries. */
  function CountShownCorrect(ks: seq<CharClass>): (n: nat)
    ensures n <= |ks|
  {
    if ks == [] then 0 else (if ks[0] == Correct then 1 else 0) + CountShownCorrect(ks[1..])
  }

  /** The positions shown as correct are exactly the ones the session counts as correctly typed. */
  lemma {:induction false} CorrectCountIsCharactersTyped(target: string, input: string)
    ensures CountShownCorrect(Classes(target, input)) == MatchCount(input, target)
  {
    if target != [] {
      if input == [] {
        NoneCorrectWithoutInput(target);
      } else {
        CorrectCountIsCharactersTyped(target[1..], input[1..]);
        assert Classes(target, input)[1..] == Classes(target[1..], input[1..]);
      }
    }
  }

  lemma {:induction false} NoneCorrectWithoutInput(target: string)
    ensures CountShownCorrect(Classes(target, [])) == 0
  {
    if target != [] {
      NoneCorrectWithoutInput(target[1..]);
      assert Classes(target, [])[1..] == Classes(target[1..], []);
    }
  }

  // ---------------------------------------------------------------------
  // The code display
  // ---------------------------------------------------------------------

  /** `CodeDisplay`: the `'|'`-separated codes, joined by `" / "`. */
  function CodeDisplay(code: string): (shown: string)
    ensures '|' !in shown
    ensures '|' !in code ==> shown == code
  {
    var parts := SplitOn(code, '|');
    JoinWithout(parts, " / ", '|');
    JoinWith(parts, " / ")
  }

  /** Codes written with `'|'` between them are shown with `" / "` between them. */
  lemma CodeDisplayOfPipeList(codes: seq<string>)
    requires codes != []
    requires forall i :: 0 <= i < |codes| ==> '|' !in codes[i]
    ensures CodeDisplay(JoinWith(codes, "|")) == JoinWith(codes, " / ")
  {
    JoinSplitRoundTrip(codes, '|');
  }

  /**
   * The generated table separates a character's codes with `','`, which the
   * display does not split on: a character with several codes is shown
   * with the commas, as one keycap.
   */
  lemma CommaListShownVerbatim(codes: seq<string>)
    requires forall i :: 0 <= i < |codes| ==> '|' !in codes[i]
    ensures CodeDisplay(CodeList(codes)) == CodeList(codes)
  {
    var sorted := SortByLength(codes);
    forall i | 0 <= i < |sorted|
      ensures '|' !in sorted[i]
    {
      assert sorted[i] in multiset(codes);
    }
    JoinWithout(sorted, ",", '|');
  }

  /** The codes "ab" and "c" sorted shortest first. */
  lemma SortTwoCodes()
    ensures SortByLength(["ab", "c"]) == ["c", "ab"]
  {
    assert ["ab", "c"][1..] == ["c"];
    assert SortByLength(["c"]) == ["c"];
    assert InsertByLength("ab", ["c"]) == ["c", "ab"];
  }

  /** The two sorted codes joined by a comma. */
  lemma JoinTwoCodes()
    ensures JoinWith(["c", "ab"], ",") == "c,ab"
  {
    assert ["c", "ab"][1..] == ["ab"];
  }

  /** The codes "ab" and "c" are listed shortest first. */
  lemma CodeListExample()
    ensures CodeList(["ab", "c"]) == "c,ab"
  {
    SortTwoCodes();
    JoinTwoCodes();
  }

  /** For example, the codes "ab" and "c" are shown as one keycap "c,ab". */
  lemma CommaListExample()
    ensures CodeDisplay(CodeList(["ab", "c"])) == "c,ab"
  {
    CodeListExample();
    assert '|' !in "c,ab";
  }

  /**
   * The generator as the display expects it, joining a character's codes
   * with `'|'`: each code becomes its own keycap, shortest first, whatever
   * keys it uses, the comma key included.
   */
  lemma PipeCodesShownApart(codes: seq<string>)
    requires codes != []
    requires forall i :: 0 <= i < |codes| ==> '|' !in codes[i]
    ensures CodeDisplay(PipeCodeList(codes)) == JoinWith(SortByLength(codes), " / ")
  {
    var sorted := SortByLength(codes);
    forall i | 0 <= i < |sorted|
      ensures '|' !in sorted[i]
    {
      assert sorted[i] in multiset(codes);
    }
    assert |sorted| == |multiset(sorted)| == |multiset(codes)| == |codes|;
    CodeDisplayOfPipeList(sorted);
  }

  /** The two sorted codes joined by a slash. */
  lemma JoinTwoCodesApart()
    ensures JoinWith(["c", "ab"], " / ") == "c / ab"
  {
    assert ["c", "ab"][1..] == ["ab"];
  }

  /** With the pipe, the codes "ab" and "c" are shown as "c / ab". */
  lemma PipeDisplayExample()
    ensures CodeDisplay(PipeCodeList(["ab", "c"])) == "c / ab"
  {
    PipeCodesShownApart(["ab", "c"]);
    SortTwoCodes();
    JoinTwoCodesApart();
  }

  /** The codes ",a" and "b" sorted shortest first. */
  lemma SortCommaKeyCodes()
    ensures SortByLength([",a", "b"]) == ["b", ",a"]
  {
    assert [",a", "b"][1..] == ["b"];
    assert SortByLength(["b"]) == ["b"];
    assert InsertByLength(",a", ["b"]) == ["b", ",a"];
  }

  /** The two sorted codes joined by a slash. */
  lemma JoinCommaKeyCodesApart()
    ensures JoinWith(["b", ",a"], " / ") == "b / ,a"
  {
    assert ["b", ",a"][1..] == [",a"];
  }

  /** A code using the comma key keeps its comma on its own keycap. */
  lemma CommaKeyDisplayExample()
    ensures CodeDisplay(PipeCodeList([",a", "b"])) == "b / ,a"
  {
    PipeCodesShownApart([",a", "b"]);
    SortCommaKeyCodes();
    JoinCommaKeyCodesApart();
  }

  // ---------------------------------------------------------------------
  // Saving and the handlers
  // ---------------------------------------------------------------------

  /** The record `save_current_session` builds from a session's counters and target. */
  function RecordOf(stats: TypingStats, target: string, timestamp: string): (r: SessionRecord)
    requires stats.errors <= stats.totalTyped
    ensures r.wpm == Wpm(stats) && r.accuracy == Accuracy(stats)
    ensures r.elapsedSeconds == stats.elapsedSeconds && r.exerciseText == target && r.timestamp == timestamp
  {
    SessionRecord(Wpm(stats), Accuracy(stats), timestamp, stats.elapsedSeconds, target)
  }

  /** A completed attempt is recorded with full accuracy and the speed of the whole target. */
  lemma CompletedRecordIsPerfect(target: string, input: string, elapsedMs: nat, timestamp: string)
    requires IsComplete(target, input)
    ensures RecordOf(StatsFor(target, input, elapsedMs), target, timestamp).accuracy == 100.0
    ensures elapsedMs >= 1000 ==>
      RecordOf(StatsFor(target, input, elapsedMs), target, timestamp).wpm * ((elapsedMs / 1000) as real)
        == 12.0 * (|target| as real)
  {
    CompleteIffPerfect(target, input, elapsedMs);
    if elapsedMs >= 1000 {
      WpmRate(StatsFor(target, input, elapsedMs));
    }
  }

  /** The state of the practice screen: the session, the text box, the start time and the completion flag. */
  class PracticeInterface {
    var session: PracticeSession
    var userInput: string
    var startTimeMs: nat
    var showCompletion: bool
    const history: HistoryManager
    const table: seq<(char, string)>

    /**
     * The text box mirrors the session's input, the counters are consistent,
     * and the completion flag is set only for a finished, error-free attempt.
     */
    ghost predicate Valid()
      reads this, session
    {
      && userInput == session.userInput
      && Consistent(session.stats)
      && (showCompletion ==>
            |session.targetText| > 0 && session.userInput == session.targetText
            && session.stats.errors == 0
            && session.stats.charactersTyped == |session.targetText|)
    }

    constructor (history: HistoryManager, table: seq<(char, string)>)
      ensures this.history == history && this.table == table
      ensures fresh(session) && session.targetText == GetExercise(0) && session.exerciseIndex == 0
      ensures userInput == [] && startTimeMs == 0 && !showCompletion
      ensures Valid()
    {
      this.history := history;
      this.table := table;
      session := new PracticeSession();
      userInput := [];
      startTimeMs := 0;
      showCompletion := false;
    }

    /**
     * `handle_input`: the first keystroke starts the attempt and its clock;
     * the counters are recomputed against the time since then, floored at
     * zero; the flag records whether the attempt is now complete. The clock
     * is read twice, as `startClockMs` and `nowMs`.
     */
    method HandleInput(value: string, startClockMs: nat, nowMs: nat)
      requires Valid()
      modifies this`userInput, this`startTimeMs, this`showCompletion, session
      ensures session == old(session) && Valid()
      ensures userInput == value && session.userInput == value
      ensures session.started
      ensures startTimeMs == if old(session.started) then old(startTimeMs) else startClockMs
      ensures session.targetText == old(session.targetText) && session.exerciseIndex == old(session.exerciseIndex)
      ensures session.stats == StatsFor(session.targetText, value, SaturatingSub(nowMs, startTimeMs))
      ensures showCompletion == IsComplete(session.targetText, value)
    {
      userInput := value;
      if !session.started {
        session.Start();
        startTimeMs := startClockMs;
      }
      var elapsed := SaturatingSub(nowMs, startTimeMs);
      session.UpdateInput(value, elapsed);
      var target := session.targetText;
      if |target| > 0 {
        var matchesTarget := |value| == |target|;
        var i := 0;
        while matchesTarget && i < |value|
          invariant 0 <= i <= |value|
          invariant matchesTarget ==> |value| == |target| && value[..i] == target[..i]
          invariant !matchesTarget ==> !IsComplete(target, value)
        {
          if value[i] != target[i] {
            matchesTarget := false;
          }
          assert value[..i + 1] == value[..i] + [value[i]];
          assert target[..i + 1] == target[..i] + [target[i]];
          i := i + 1;
        }
        assert matchesTarget ==> value == value[..i] && target == target[..i];
        showCompletion := matchesTarget;
      } else {
        showCompletion := false;
      }
      CompleteIffPerfect(target, value, elapsed);
    }

    /** `handle_reset`: a brand-new session at the first exercise, and a cleared screen. */
    method HandleReset()
      requires Valid()
      modifies this`session, this`userInput, this`startTimeMs, this`showCompletion
      ensures fresh(session) && Valid()
      ensures session.targetText == GetExercise(0) && session.exerciseIndex == 0
      ensures session.userInput == [] && session.stats == TypingStats(0, 0, 0, 0) && !session.started
      ensures userInput == [] && startTimeMs == 0 && !showCompletion
    {
      var created := new PracticeSession();
      session, userInput, startTimeMs, showCompletion := created, [], 0, false;
    }

    /** `save_current_session`: the session's record is stored under the key for `now`. */
    method SaveCurrentSession(timestamp: string, now: string)
      requires Valid()
      modifies history`store
      ensures history.store ==
        StoreAfterSave(history.codec, old(history.store), RecordOf(session.stats, session.targetText, timestamp), now)
    {
      var record := RecordOf(session.stats, session.targetText, timestamp);
      history.SaveSession(record, now);
    }

    /**
     * `handle_next`: a completed attempt is saved first, and only then; the
     * session moves on to the next exercise, and the screen is cleared.
     */
    method HandleNext(timestamp: string, now: string)
      requires Valid()
      modifies this`session, this`userInput, this`startTimeMs, this`showCompletion, history`store
      ensures fresh(session) && Valid()
      ensures old(showCompletion) ==>
        history.store == StoreAfterSave(history.codec, old(history.store),
          RecordOf(old(session.stats), old(session.targetText), timestamp), now)
      ensures old(showCompletion) ==> RecordOf(old(session.stats), old(session.targetText), timestamp).accuracy == 100.0
      ensures !old(showCompletion) ==> history.store == old(history.store)
      ensures session.exerciseIndex == old(session.exerciseIndex) + 1
      ensures session.targetText == GetExercise(session.exerciseIndex)
      ensures session.userInput == [] && session.stats == TypingStats(0, 0, 0, 0) && !session.started
      ensures userInput == [] && startTimeMs == 0 && !showCompletion
    {
      ghost var record := RecordOf(session.stats, session.targetText, timestamp);
      assert showCompletion ==> record.accuracy == 100.0;
      if showCompletion {
        SaveCurrentSession(timestamp, now);
      }
      var next := session.Clone();
      next.NextExercise();
      session, userInput, startTimeMs, showCompletion := next, [], 0, false;
    }

    /** The hint box for the current input. */
    function CurrentHint(): (h: Hint)
      reads this, session
      ensures h.ExerciseComplete? <==> NextChar(userInput, session.targetText).None?
    {
      HintFor(table, userInput, session.targetText)
    }
  }
}
