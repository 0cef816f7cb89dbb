/**
 * The typing-session state machine of src/logic.rs: the raw counters of one
 * attempt, the speed and accuracy derived from them, the fixed list of
 * exercises, and the session object that the user interface mutates.
 */
module Typing {

  /** Counters for one attempt; `usize`/`u64` in the source, unbounded here. */
  datatype TypingStats = TypingStats(
    charactersTyped: nat,
    errors: nat,
    totalTyped: nat,
    elapsedSeconds: nat)

  /** Every error is a typed character that is not a correct one. */
  predicate Consistent(s: TypingStats)
  {
    s.errors + s.charactersTyped == s.totalTyped
  }

  /** `usize::saturating_sub`. */
  function SaturatingSub(a: nat, b: nat): (r: nat)
    ensures b <= a ==> r + b == a
    ensures a < b ==> r == 0
  {
    if b <= a then a - b else 0
  }

  /**
   * Words per minute, a word being five correct characters; zero before a
   * whole second has passed.
   */
  function Wpm(s: TypingStats): (r: real)
    ensures s.elapsedSeconds == 0 ==> r == 0.0
    ensures r >= 0.0
  {
    if s.elapsedSeconds > 0 then
      (s.charactersTyped as real / 5.0) / (s.elapsedSeconds as real / 60.0)
    else
      0.0
  }

  /** Over a positive time, the speed times the seconds is twelve times the correct characters. */
  lemma WpmRate(s: TypingStats)
    requires s.elapsedSeconds > 0
    ensures Wpm(s) * (s.elapsedSeconds as real) == 12.0 * (s.charactersTyped as real)
  {
    var minutes := s.elapsedSeconds as real / 60.0;
    assert minutes * 60.0 == s.elapsedSeconds as real;
    var words := s.charactersTyped as real / 5.0;
    assert Wpm(s) == words / minutes;
    assert Wpm(s) * minutes == words;
  }

  /**
   * The share of typed characters that are not errors, in percent; 100 when
   * nothing has been typed. The source subtracts `errors` from `total_typed`
   * as `usize`, so it needs `errors <= total_typed`.
   */
  function Accuracy(s: TypingStats): (r: real)
    requires s.errors <= s.totalTyped
    ensures s.totalTyped == 0 ==> r == 100.0
    ensures 0.0 <= r <= 100.0
    ensures s.totalTyped > 0 ==> (r == 100.0 <==> s.errors == 0)
  {
    if s.totalTyped > 0 then
      var share := (s.totalTyped - s.errors) as real / s.totalTyped as real;
      assert share * s.totalTyped as real == (s.totalTyped - s.errors) as real;
      share * 100.0
    else
      100.0
  }

  /** With consistent counters, the accuracy is the percentage of typed characters that are correct. */
  lemma AccuracyShare(s: TypingStats)
    requires Consistent(s) && s.totalTyped > 0
    ensures Accuracy(s) * (s.totalTyped as real) == 100.0 * (s.charactersTyped as real)
  {
    var share := (s.totalTyped - s.errors) as real / s.totalTyped as real;
    assert share * s.totalTyped as real == (s.totalTyped - s.errors) as real;
    assert Accuracy(s) == share * 100.0;
  }

  /**
   * The number of positions, counting from the start of both strings, at
   * which `input` and `target` hold the same character.
   */
  function MatchCount(input: string, target: string): (n: nat)
    ensures n <= |input| && n <= |target|
  {
    if input == [] || target == [] then 0
    else (if input[0] == target[0] then 1 else 0) + MatchCount(input[1..], target[1..])
  }

  /** One more typed character adds one match exactly when it equals the target at its position. */
  lemma {:induction false} MatchCountSnoc(input: string, c: char, target: string)
    ensures MatchCount(input + [c], target) ==
      MatchCount(input, target) + (if |input| < |target| && c == target[|input|] then 1 else 0)
  {
    if input != [] && target != [] {
      assert (input + [c])[1..] == input[1..] + [c];
      MatchCountSnoc(input[1..], c, target[1..]);
    }
  }

  /** All typed characters match iff the input is a prefix of the target. */
  lemma {:induction false} MatchCountFull(input: string, target: string)
    ensures MatchCount(input, target) == |input| <==> |input| <= |target| && input == target[..|input|]
  {
    if input != [] && target != [] {
      MatchCountFull(input[1..], target[1..]);
      if MatchCount(input, target) == |input| {
        assert input == [input[0]] + input[1..];
      }
    }
  }

  /** The counting loop of `update_input`: one pass over the input characters. */
  method CountCorrect(input: string, target: string) returns (correct: nat)
    ensures correct == MatchCount(input, target)
  {
    correct := 0;
    for i := 0 to |input|
      invariant correct == MatchCount(input[..i], target)
    {
      assert input[..i + 1] == input[..i] + [input[i]];
      MatchCountSnoc(input[..i], input[i], target);
      if i < |target| && input[i] == target[i] {
        correct := correct + 1;
      }
    }
    assert input[..|input|] == input;
  }

  /** The counters `update_input` stores for `input` typed against `target` after `elapsedMs` milliseconds. */
  function StatsFor(target: string, input: string, elapsedMs: nat): (s: TypingStats)
    ensures Consistent(s)
    ensures s.totalTyped == |input|
    ensures s.charactersTyped == MatchCount(input, target)
    ensures s.charactersTyped <= |input| && s.charactersTyped <= |target|
    ensures s.elapsedSeconds * 1000 <= elapsedMs < s.elapsedSeconds * 1000 + 1000
  {
    var correct := MatchCount(input, target);
    TypingStats(correct, SaturatingSub(|input|, correct), |input|, elapsedMs / 1000)
  }

  /** The unit-test case: four CJK characters with one wrong, after 2.5 seconds. */
  lemma StatsForCjkExample()
    ensures StatsFor("漢字測試", "漢字x試", 2500) == TypingStats(3, 1, 4, 2)
  {
    var t, u := "漢字測試", "漢字x試";
    assert t[1..][1..][1..][1..] == [] && u[1..][1..][1..][1..] == [];
    assert MatchCount(t[1..][1..][1..], u[1..][1..][1..]) == 1;
    assert MatchCount(u, t) == 3;
  }

  /** The number of exercise prompts. */
  const ExerciseCount: nat := 8

  /** The exercise prompts, in order. */
  function ExerciseText(k: nat): (text: string)
    requires k < ExerciseCount
    ensures |text| > 0
  {
    match k
    case 0 => "Array30是一個高效率的漢字輸入法"
    case 1 => "熟能生巧，經過練習可以提高打字速度"
    case 2 => "這個打字教練使用Rust和Dioxus開發"
    case 3 => "Array30採用最優化的按鍵配置設計"
    case 4 => "持續練習將幫助您改善打字的技能"
    case 5 => "中文輸入法有很多不同的方式和系統"
    case 6 => "提高打字速度需要長期的努力和堅持"
    case _ => "Array30提供快速和準確的輸入體驗"
  }

  /** The prompt for an exercise index, wrapping around the list. */
  function GetExercise(index: nat): (text: string)
    ensures |text| > 0
  {
    ExerciseText(index % ExerciseCount)
  }

  /** Moving on by a whole number of rounds of the list gives the same prompt. */
  lemma {:induction false} ExerciseWraps(index: nat, rounds: nat)
    ensures GetExercise(index + rounds * ExerciseCount) == GetExercise(index)
  {
    if rounds > 0 {
      var earlier := index + (rounds - 1) * ExerciseCount;
      ExerciseWraps(index, rounds - 1);
      assert index + rounds * ExerciseCount == earlier + ExerciseCount;
      assert (earlier + ExerciseCount) % ExerciseCount == earlier % ExerciseCount;
    }
  }

  /** One attempt at one exercise. */
  class PracticeSession {
    var targetText: string
    var userInput: string
    var stats: TypingStats
    var started: bool
    var exerciseIndex: nat

    /** `PracticeSession::new`. */
    constructor ()
      ensures targetText == GetExercise(0) && userInput == [] && stats == TypingStats(0, 0, 0, 0)
      ensures !started && exerciseIndex == 0
    {
      targetText := GetExercise(0);
      userInput := [];
      stats := TypingStats(0, 0, 0, 0);
      started := false;
      exerciseIndex := 0;
    }

    /** Marks the attempt as started; nothing else changes, and calling it again changes nothing. */
    method Start()
      modifies this`started
      ensures started
    {
      started := true;
    }

    /** Replaces the input and recomputes every counter from it. */
    method UpdateInput(input: string, elapsedMs: nat)
      modifies this`userInput, this`stats
      ensures userInput == input
      ensures stats == StatsFor(targetText, input, elapsedMs)
      ensures Consistent(stats)
    {
      userInput := input;
      var correct := CountCorrect(input, targetText);
      var totalTyped := |input|;
      stats := TypingStats(correct, SaturatingSub(totalTyped, correct), totalTyped, elapsedMs / 1000);
    }

    /** Moves to the following exercise with a fresh attempt. */
    method NextExercise()
      modifies this
      ensures exerciseIndex == old(exerciseIndex) + 1
      ensures targetText == GetExercise(exerciseIndex)
      ensures userInput == [] && stats == TypingStats(0, 0, 0, 0) && !started
    {
      exerciseIndex := exerciseIndex + 1;
      targetText := GetExercise(exerciseIndex);
      userInput := [];
      stats := TypingStats(0, 0, 0, 0);
      started := false;
    }

    /** `#[derive(Clone)]`: a new session with the same field values. */
    method Clone() returns (copy: PracticeSession)
      ensures fresh(copy)
      ensures copy.targetText == targetText && copy.userInput == userInput && copy.stats == stats
      ensures copy.started == started && copy.exerciseIndex == exerciseIndex
    {
      copy := new PracticeSession();
      copy.targetText, copy.userInput, copy.stats := targetText, userInput, stats;
      copy.started, copy.exerciseIndex := started, exerciseIndex;
    }
  }

  /** The unit test on `update_input`: the target is set directly, as the test does. */
  method UpdateInputCountsCharacters()
  {
    var session := new PracticeSession();
    session.targetText := "漢字測試";
    session.UpdateInput("漢字x試", 2500);
    StatsForCjkExample();
    assert session.stats == TypingStats(3, 1, 4, 2);
  }

  /** The unit test on `next_exercise`, and the wrap-around after a full round of the list. */
  method NextExerciseResets()
  {
    var session := new PracticeSession();
    var first := session.targetText;
    session.Start();
    session.UpdateInput("abc", 3000);
    session.NextExercise();
    assert !session.started && session.userInput == [] && session.stats == TypingStats(0, 0, 0, 0);
    var n := 1;
    while n < ExerciseCount
      invariant 1 <= n <= ExerciseCount
      invariant session.exerciseIndex == n
      invariant session.targetText == GetExercise(n)
    {
      session.NextExercise();
      n := n + 1;
    }
    ExerciseWraps(0, 1);
    assert session.targetText == first;
  }
}
