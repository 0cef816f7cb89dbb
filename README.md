# Array30 typing tutor — a verified model of its core

Array30 is a Chinese input method: each character is typed as a short code
of keys. The tutor shows a practice sentence and colours it as the learner
types. For the next expected character it shows the Array30 key codes. A
completed attempt is saved as a session record in the browser's local
storage, and the statistics page summarises those records. The code table
comes from a generator script that reads an input-method (`.cin`) file.

The model has one Dafny module per core source file:

- `Typing` (`typing.dfy`) models `src/logic.rs`:
  - typing statistics, words per minute and accuracy;
  - the counting loop of `update_input`;
  - the exercise list;
  - the `PracticeSession` object as a class with `start`, `update_input`, `next_exercise` and `clone`.
- `Storage` (`storage.dfy`) models `src/storage.rs`:
  - session records and aggregate statistics (`from_records`);
  - the key layout of local storage;
  - `HistoryManager` as a class over a string-to-string map. Its loops load and clear the records.
- `CharDef` (`chardef.dfy`) models `generate_data.py`:
  - the line-by-line `%chardef` parser, with Python's `strip`/`split` whitespace;
  - the sort by code point, and the stable sort of each code list by length;
  - the comma-joined table rows, and the same rows joined by `|` (`PipeCodeList`), the separator the display splits on;
  - the binary-search lookup emitted into the generated Rust file.
- `Practice` (`practice.dfy`) models `src/components/practice_interface.rs`:
  - completion detection, and the matched prefix that picks the hint character;
  - the hint box and the per-character colouring;
  - `CodeDisplay`;
  - the saved record;
  - the component's event handlers, as a class whose fields are its signals.
- `StatisticsView` (`stats_view.dfy`) models `src/components/statistics.rs`: when the cards are shown, and `format_time` together with a reading of its text back into seconds.
- `Text` (`text.dfy`) and `Wrappers` (`wrappers.dfy`) hold shared helpers:
  - splitting and joining strings;
  - decimal rendering of naturals;
  - `Option`.

Clocks, the wall-clock timestamp and `Date::now()` are parameters of the
methods that read them: `startClockMs`, `nowMs`, `timestamp` and `now`.
JSON serialisation is an abstract `Codec` value. The lemmas that read back what was written assume only that decoding the encoding of the values concerned gives them back (`Codec.RecordRoundTrips` for the saved record, `Codec.KeysRoundTrip` for the written key list), and `Storage.RoundTripsSatisfiable` shows a codec meeting both for any record and key list.

`f64` values are modelled as exact reals. So the WPM and averages are exact,
and the aggregate test's `EPSILON` comparisons become equalities
(`Storage.FromRecordsExample`).

The two unit tests in `src/logic.rs` are restated as methods:
`Typing.UpdateInputCountsCharacters` and `Typing.NextExerciseResets`. They
call the class's methods and `assert` the test's expectations, so they
carry no `ensures`.

## Model

| member | source | states |
|---|---|---|
| Typing.SaturatingSub | src/logic.rs:69 | the result is `a - b` when `b <= a`, else 0 |
| Typing.Wpm | src/logic.rs:12-18 | WPM is 0 for a zero elapsed time and never negative |
| Typing.WpmRate | src/logic.rs:14 | for a positive time, WPM times seconds is 12 times the correct characters (5 characters per word, 60 seconds per minute) |
| Typing.Accuracy | src/logic.rs:20-26 | 100 with nothing typed, always within 0..100, and exactly 100 iff no errors once something is typed |
| Typing.AccuracyShare | src/logic.rs:22 | for consistent stats, accuracy times total typed is 100 times the correct characters |
| Typing.MatchCount | src/logic.rs:60-65 | positionwise matches never exceed the input or target length |
| Typing.MatchCountSnoc | src/logic.rs:61-64 | typing one more character adds one match exactly when it matches the target at that position |
| Typing.MatchCountFull | src/logic.rs:60-65 | every typed character matches iff the input is a prefix of the target |
| Typing.CountCorrect | src/logic.rs:60-65 | the counting loop returns the positionwise match count |
| Typing.StatsFor | src/logic.rs:53-71 | the stats count characters, not bytes: total = input length, correct = matches, errors = total - correct, seconds = milliseconds / 1000 floored |
| Typing.StatsForCjkExample | src/logic.rs:107-118 | the CJK test: 4 characters typed with one wrong, over 2.5 s, give 3 correct, 1 error, 4 typed and 2 s |
| Typing.ExerciseText | src/logic.rs:82-91 | each of the eight exercise sentences is non-empty |
| Typing.GetExercise | src/logic.rs:81-94 | any index yields a non-empty exercise |
| Typing.ExerciseWraps | src/logic.rs:93 | the exercise index wraps modulo the eight exercises |
| Typing.PracticeSession.constructor | src/logic.rs:39-47 | a new session holds exercise 0, empty input, zero stats, not started |
| Typing.PracticeSession.Start | src/logic.rs:49-51 | marks the session started, nothing else changes |
| Typing.PracticeSession.UpdateInput | src/logic.rs:53-71 | stores the input and sets the stats to those of the input against the target; stats stay consistent |
| Typing.PracticeSession.NextExercise | src/logic.rs:73-79 | advances the index by one, loads that exercise, clears the input and stats, un-starts |
| Typing.PracticeSession.Clone | src/logic.rs:29 | returns a fresh session with equal fields |
| Storage.Max | src/storage.rs:94 | `f64::max` is at least both arguments and is one of them |
| Storage.BestOf | src/storage.rs:94 | the fold with `max` from 0 bounds every value and is 0 or one of them |
| Storage.SumAtMost | src/storage.rs:95 | a sum of values each at most a bound is at most the bound times their count |
| Storage.Sum | src/storage.rs:95 | no contract of its own; `Storage.SumSnoc` and `Storage.SumAtMost` state how it grows and its bound |
| Storage.SumNat | src/storage.rs:99 | every elapsed time is at most the total practice time |
| Storage.Mean | src/storage.rs:95 | the mean times the count is the sum |
| Storage.MeanAtMostBest | src/storage.rs:94-95 | the mean never exceeds the best value |
| Storage.MeanSnoc | src/storage.rs:95 | the mean after appending a value is the new sum over the new count |
| Storage.Wpms | src/storage.rs:94-95 | the projected WPMs follow the records one for one |
| Storage.Accuracies | src/storage.rs:96-98 | the projected accuracies follow the records one for one |
| Storage.ElapsedTimes | src/storage.rs:99 | the projected times follow the records one for one |
| Storage.FromRecords | src/storage.rs:88-110 | no records give the default; otherwise session count, total time, best values (each an upper bound attained by a record or 0) and averages as means |
| Storage.SumSnoc | src/storage.rs:95 | the running sum grows by the appended value |
| Storage.SumNatSnoc | src/storage.rs:99 | the total time grows by the appended record's time |
| Storage.BestOfSnoc | src/storage.rs:94 | the best after appending a value is the max of the old best and that value |
| Storage.AverageAtMostBest | src/storage.rs:88-110 | for non-empty records, average WPM and accuracy never exceed the best |
| Storage.AppendRecord | src/storage.rs:88-110 | appending a record adds one session and its time, and maxes the bests with its values |
| Storage.AppendRecordAverages | src/storage.rs:95-98 | after appending a record, the averages are the means over the extended value lists |
| Storage.FromRecordsExample | src/storage.rs:122-149 | the aggregate test: two sessions, best 40 WPM and 95 %, 75 s, averages 30 and 92.5 |
| Storage.SessionKey | src/storage.rs:21 | a session key never equals the key-list key |
| Storage.KeyList | src/storage.rs:34-43 | a missing or undecodable key list reads as empty |
| Storage.KeyListRoundTrip | src/storage.rs:27-43 | a key list written under the list key is read back unchanged, given only that the codec reads back that list |
| Storage.LoadOne | src/storage.rs:51-54 | at most one record per key; a record exactly when the key is stored and its value decodes, and then the decoded record |
| Storage.Loaded | src/storage.rs:50-56 | the loaded records are never more than the keys |
| Storage.LoadedAll | src/storage.rs:50-56 | when every listed key holds a decodable record, one record per key is loaded |
| Storage.LoadedFrame | src/storage.rs:50-56 | loading depends only on the entries under the listed keys |
| Storage.StoreAfterSave | src/storage.rs:18-32 | saving writes the encoded record under the new key and the extended key list, and leaves every other entry as it was |
| Storage.Listed | src/storage.rs:65 | the set of listed keys has the same members as the list |
| Storage.StoreAfterClear | src/storage.rs:62-70 | clearing removes exactly the listed keys and the key list, leaving other entries unchanged |
| Storage.ClearIdempotent | src/storage.rs:62-70 | clearing twice is clearing once |
| Storage.ClearEmptiesHistory | src/storage.rs:62-70 | after clearing, the key list read from the cleared store is empty, and the statistics loaded under it are the default |
| Storage.SaveThenLoad | src/storage.rs:18-60 | with a new key, and a codec that reads back this record and the extended key list, saving appends that key to the list and the saved record to the loaded records |
| Storage.SaveUpdatesStatistics | src/storage.rs:18-60 | with a new key, and a codec that reads back this record and the extended key list, saving adds one session and its time to the statistics and maxes the best WPM with its WPM |
| Storage.RoundTripsSatisfiable | src/storage.rs:20-28 | for any record and key list some codec reads both back, so the save lemmas' requirements can be met |
| Storage.HistoryManager.constructor | src/storage.rs:13 | a manager over the given codec and store |
| Storage.HistoryManager.GetSessionsList | src/storage.rs:34-43 | returns the decoded key list or an empty one |
| Storage.HistoryManager.SaveSession | src/storage.rs:18-32 | the store becomes the store after saving the record |
| Storage.HistoryManager.GetStatistics | src/storage.rs:45-60 | the loop returns the statistics of the records loaded under the listed keys |
| Storage.HistoryManager.ClearHistory | src/storage.rs:62-70 | the loop leaves the store as it is after clearing |
| CharDef.IsSpace | generate_data.py:9 | no contract of its own; accepts exactly the characters Python's `strip()` and `split()` treat as whitespace: space, tab to carriage return, U+001C to U+001F, U+0085, U+00A0, U+1680, U+2000 to U+200A, U+2028, U+2029, U+202F, U+205F and U+3000 |
| CharDef.TrimLeft | generate_data.py:9 | no contract of its own; `CharDef.TrimLeftSpec` states it |
| CharDef.TrimRight | generate_data.py:9 | no contract of its own; `CharDef.TrimRightSpec` states it |
| CharDef.Strip | generate_data.py:9 | no contract of its own; `CharDef.StripSpec` and `CharDef.StripIdempotent` state it |
| CharDef.TrimLeftSpec | generate_data.py:9 | trimming the left drops a whitespace prefix and stops at the first non-whitespace character |
| CharDef.TrimRightSpec | generate_data.py:9 | trimming the right drops a whitespace suffix and stops at the last non-whitespace character |
| CharDef.StripSpec | generate_data.py:9-11 | a stripped line starts and ends with non-whitespace, and is empty iff the line is all whitespace |
| CharDef.StripIdempotent | generate_data.py:9 | stripping twice is stripping once |
| CharDef.Word | generate_data.py:25 | the first word is the longest whitespace-free prefix |
| CharDef.Fields | generate_data.py:25 | `split()` yields non-empty whitespace-free fields |
| CharDef.RemoveSpaces | generate_data.py:25 | removing whitespace leaves none |
| CharDef.RemoveSpacesAppend | generate_data.py:25 | removing whitespace distributes over concatenation |
| CharDef.RemoveSpacesOfWord | generate_data.py:25 | removing whitespace from a whitespace-free word leaves it unchanged |
| CharDef.FieldsKeepText | generate_data.py:25 | the fields concatenate to the line without its whitespace: nothing lost or added |
| CharDef.FieldsSkipSpace | generate_data.py:25 | leading whitespace adds no field |
| CharDef.WordBeforeSpace | generate_data.py:25 | the first word of a whitespace-free word followed by whitespace or nothing is that word |
| CharDef.FieldsWordThenSpace | generate_data.py:25 | a word followed by whitespace is the first field, the rest of the line gives the other fields |
| CharDef.FieldsOfWord | generate_data.py:25 | a single whitespace-free word splits into just itself |
| CharDef.FieldsJoinRoundTrip | generate_data.py:25 | non-empty whitespace-free words joined by whitespace split back into exactly those words |
| CharDef.Entry | generate_data.py:25-32 | a line yields an entry iff it has at least two fields and the second is one character, namely (first field, that character) |
| CharDef.Classify | generate_data.py:9-23 | a data line is the stripped line, non-empty, not a comment |
| CharDef.EntryOf | generate_data.py:9-32 | blank lines, markers and comments yield no entry; a data line yields its parsed entry |
| CharDef.Add | generate_data.py:34-36 | appends the code to that character's list (created if new), touches nothing else, keeps the state well formed |
| CharDef.Step | generate_data.py:8-36 | only the two markers move the section flag, and only a data line inside a section changes the key order and mapping |
| CharDef.Parse | generate_data.py:3-36 | no contract of its own; `CharDef.ParseCollectsEntries` and `CharDef.ParseWellFormed` state what it collects |
| CharDef.StepWellFormed | generate_data.py:8-36 | one line keeps the key order duplicate-free and in step with the mapping |
| CharDef.ParseWellFormed | generate_data.py:3-36 | the parsed dictionary's insertion order lists each key once |
| CharDef.CollectMappings | generate_data.py:3-36 | the reading loop returns the key order and mapping of the line-by-line parse |
| CharDef.ParseCollectsEntries | generate_data.py:3-36 | the parse ends inside a section iff the last marker opened one, and maps each character to exactly the codes of entries inside sections, in file order |
| CharDef.NoSectionNoEntries | generate_data.py:12-19 | a file with no opening marker yields an empty mapping |
| CharDef.OutsideSectionUnchanged | generate_data.py:19 | outside a section, non-marker lines change nothing |
| CharDef.MarkersOnlyToggle | generate_data.py:12-17 | the markers only switch the section flag |
| CharDef.BlankAndCommentsIgnored | generate_data.py:10-11 | blank and comment lines change nothing |
| CharDef.InsertChar | generate_data.py:39 | insertion adds the character to the multiset |
| CharDef.InsertCharNonDecreasing | generate_data.py:39 | insertion into a sorted list keeps it sorted |
| CharDef.InsertCharIncreasing | generate_data.py:39 | inserting a new character into a strictly increasing list keeps it strictly increasing |
| CharDef.SortChars | generate_data.py:39 | `sorted` returns a permutation of the keys |
| CharDef.SortCharsSorted | generate_data.py:39 | the keys come out in code-point order, strictly so when they are distinct |
| CharDef.InsertByLength | generate_data.py:46 | insertion adds the code to the multiset |
| CharDef.InsertByLengthSorted | generate_data.py:46 | insertion into a list sorted by length keeps it sorted by length |
| CharDef.SortByLength | generate_data.py:46 | `sorted(key=len)` is a permutation ordered by length |
| CharDef.InsertByLengthStable | generate_data.py:46 | insertion places the code ahead of the codes of its length already there |
| CharDef.SortByLengthStable | generate_data.py:46 | the sort is stable: codes of one length keep their file order |
| CharDef.CodeList | generate_data.py:46-47 | no contract of its own; `CharDef.GeneratedLookup` and `Practice.CodeListExample` state what it emits |
| CharDef.PipeCodeList | generate_data.py:46-47 | no contract of its own; the generator as intended, joining with `\|`; `Practice.PipeCodesShownApart` states what the display makes of it |
| CharDef.Rows | generate_data.py:45-48 | one row per key, in the keys' order, its first column that key |
| CharDef.Table | generate_data.py:39-48 | the table's key column is the mapped characters sorted by code point |
| CharDef.KeysOf | generate_data.py:45-48 | the key column follows the table rows one for one |
| CharDef.EmitRows | generate_data.py:45-48 | the emission loop writes one row per key with its codes sorted by length and comma-joined |
| CharDef.Generate | generate_data.py:3-48 | the generator returns the table of the parsed file |
| CharDef.TableShape | generate_data.py:39-48 | the table's keys are strictly increasing and exactly the mapped characters, each row holding that character's code list |
| CharDef.Search | generate_data.py:52-56 | a hit in a range returns a code stored for the character there |
| CharDef.Lookup | generate_data.py:52-56 | a hit returns a code stored in the table for the character |
| CharDef.SearchFinds | generate_data.py:52-56 | on strictly increasing keys, a present character is always found, with its own codes |
| CharDef.LookupIffKey | generate_data.py:52-56 | on strictly increasing keys, lookup succeeds iff the character is a key, returning its row's codes |
| CharDef.GeneratedLookup | generate_data.py:39-56 | looking up a character in the generated table gives its codes, shortest first and comma-joined, or nothing when the file does not map it |
| Practice.IsComplete | src/components/practice_interface.rs:31-42 | complete iff the target is non-empty and the input equals it character for character |
| Practice.CompleteIffPerfect | src/components/practice_interface.rs:31-42 | complete iff the target is non-empty and correct, typed and target counts coincide; then no errors |
| Practice.MatchedPrefix | src/components/practice_interface.rs:73-77 | the longest common prefix: input and target agree on it and differ right after it |
| Practice.MatchedPrefixLongest | src/components/practice_interface.rs:73-77 | every common prefix is at most the matched prefix |
| Practice.MatchedPrefixAtMostMatches | src/components/practice_interface.rs:73-77 | the matched prefix never exceeds the positionwise match count |
| Practice.NextChar | src/components/practice_interface.rs:79 | the next character is the target character after the matched prefix, and is absent iff the input starts with the target |
| Practice.CompleteHasNoNextChar | src/components/practice_interface.rs:79 | a completed exercise has no next character |
| Practice.HintFor | src/components/practice_interface.rs:80-83 | hint box contents: complete iff there is no next character; otherwise the next character, with codes only when the table has them |
| Practice.HintFromGeneratedTable | src/components/practice_interface.rs:80-83 | with the generated table, codes are shown iff the input-method file maps the next character, namely its code list |
| Practice.ClassAt | src/components/practice_interface.rs:107-113 | untyped iff past the input; correct iff typed and equal to the target character |
| Practice.Classes | src/components/practice_interface.rs:107-113 | one class per target character |
| Practice.CountShownCorrect | src/components/practice_interface.rs:107-113 | the characters shown correct are at most the characters shown; `Practice.CorrectCountIsCharactersTyped` states their number |
| Practice.CorrectCountIsCharactersTyped | src/components/practice_interface.rs:107-113 | the green characters on screen number exactly the session's correct count |
| Practice.NoneCorrectWithoutInput | src/components/practice_interface.rs:107-113 | with no input nothing is shown correct |
| Practice.CodeDisplay | src/components/practice_interface.rs:214-225 | the shown text has no pipe, and a code without one is shown unchanged |
| Practice.CodeDisplayOfPipeList | src/components/practice_interface.rs:217-222 | codes joined by pipes are shown joined by " / " |
| Practice.CommaListShownVerbatim | src/components/practice_interface.rs:217 | a generated, comma-joined code list is shown unchanged as one keycap |
| Practice.CodeListExample | generate_data.py:46-47 | codes "ab" and "c" are emitted as "c,ab" |
| Practice.CommaListExample | src/components/practice_interface.rs:217 | the emitted "c,ab" is displayed as "c,ab" |
| Practice.PipeCodesShownApart | src/components/practice_interface.rs:217-222 | a code list joined by `\|`, as intended, is shown as its codes, shortest first, separated by " / " |
| Practice.JoinTwoCodesApart | src/components/practice_interface.rs:222 | the codes "c" and "ab" joined for display read "c / ab" |
| Practice.PipeDisplayExample | src/components/practice_interface.rs:217-222 | codes "ab" and "c" joined by `\|` are displayed as "c / ab" |
| Practice.SortCommaKeyCodes | generate_data.py:46 | the codes ",a" and "b" sort as "b" then ",a" |
| Practice.JoinCommaKeyCodesApart | src/components/practice_interface.rs:222 | the codes "b" and ",a" joined for display read "b / ,a" |
| Practice.CommaKeyDisplayExample | src/components/practice_interface.rs:217-222 | codes ",a" and "b", one using the comma key, joined by `\|` are displayed as "b / ,a" |
| Practice.RecordOf | src/components/practice_interface.rs:227-240 | the saved record carries the session's WPM, accuracy, seconds, exercise text and the timestamp |
| Practice.CompletedRecordIsPerfect | src/components/practice_interface.rs:227-240 | a completed exercise is recorded at 100 % accuracy, and its WPM times seconds is 12 times the target length |
| Practice.PracticeInterface.constructor | src/components/practice_interface.rs:11-15 | empty input, zero start time, no completion, a new session |
| Practice.PracticeInterface.HandleInput | src/components/practice_interface.rs:17-43 | stores the input, starts the session and its clock on the first keystroke only, sets stats for the elapsed time and the completion flag iff the input equals a non-empty target |
| Practice.PracticeInterface.HandleReset | src/components/practice_interface.rs:45-50 | a new session at exercise 0, with the screen cleared |
| Practice.PracticeInterface.SaveCurrentSession | src/components/practice_interface.rs:227-240 | the store becomes the store after saving the session's record |
| Practice.PracticeInterface.HandleNext | src/components/practice_interface.rs:52-68 | a completed attempt, and only it, is saved (at 100 % accuracy); then the next exercise is loaded and the screen cleared |
| Practice.PracticeInterface.CurrentHint | src/components/practice_interface.rs:70-86 | the hint box says complete iff there is no next character |
| StatisticsView.ShowStatCardsIffRecords | src/components/statistics.rs:15 | the cards are shown iff at least one record was loaded |
| StatisticsView.ShowStatCards | src/components/statistics.rs:15 | no contract of its own; `StatisticsView.ShowStatCardsIffRecords` states when it holds |
| StatisticsView.TimeParts | src/components/statistics.rs:105-107 | hours, minutes and seconds recombine to the total, minutes and seconds stay below 60, and they agree with dividing by 60 twice |
| StatisticsView.FormatTime | src/components/statistics.rs:104-116 | hours appear iff at least an hour, a space iff at least a minute; ends in "m" past an hour, else "s" |
| StatisticsView.FieldReadsBack | src/components/statistics.rs:110-114 | a rendered number followed by a unit letter reads back as that many units |
| StatisticsView.TwoFieldsReadBack | src/components/statistics.rs:110-112 | two space-separated fields read back as the sum of their values |
| StatisticsView.HoursRendering | src/components/statistics.rs:109-110 | from an hour on, the text is an hours field, a space and a minutes field |
| StatisticsView.HoursReadBack | src/components/statistics.rs:105-110 | from an hour on, the text reads back as the time rounded down to the minute |
| StatisticsView.MinutesRendering | src/components/statistics.rs:111-112 | between a minute and an hour, the text is a minutes field, a space and a seconds field |
| StatisticsView.MinutesReadBack | src/components/statistics.rs:105-112 | between a minute and an hour, the text reads back as the time |
| StatisticsView.SecondsRendering | src/components/statistics.rs:113-114 | under a minute, the text is the seconds and "s" |
| StatisticsView.SecondsReadBack | src/components/statistics.rs:105-114 | under a minute, the text reads back as the time |
| StatisticsView.FormatTimeReadBack | src/components/statistics.rs:104-116 | reading the text back gives the time: exactly below an hour, to the minute from an hour on |
| StatisticsView.FormatTimeZero | src/components/statistics.rs:113-114 | 0 seconds render as "0s" |
| StatisticsView.FormatTimeSeconds | src/components/statistics.rs:113-114 | 45 seconds render as "45s" |
| StatisticsView.FormatTimeMinutes | src/components/statistics.rs:111-112 | 125 seconds render as "2m 5s" |
| StatisticsView.FormatTimeHours | src/components/statistics.rs:109-110 | 3725 seconds render as "1h 2m" |
| StatisticsView.SameHoursRendering | src/components/statistics.rs:109-110 | past an hour, equal renderings agree to the minute |
| StatisticsView.SameMinutesRendering | src/components/statistics.rs:111-112 | between a minute and an hour, equal renderings mean equal times |
| StatisticsView.SameSecondsRendering | src/components/statistics.rs:113-114 | under a minute, equal renderings mean equal times |
| StatisticsView.SameMinuteSameRendering | src/components/statistics.rs:109-110 | past an hour, times agreeing to the minute render the same |
| StatisticsView.FormatTimeSameIff | src/components/statistics.rs:104-116 | two times render the same iff both are under an hour and equal, or both at least an hour and equal to the minute |
| Text.SplitOn | src/components/practice_interface.rs:217 | splitting yields at least one piece, none containing the separator, and the whole string when it has none |
| Text.JoinWith | src/components/practice_interface.rs:222 | no contract of its own; `str.join`/`Vec::join`, stated by `Text.SplitJoinRoundTrip`, `Text.JoinSplitRoundTrip` and `Text.JoinWithout` |
| Text.SplitJoinRoundTrip | src/components/practice_interface.rs:217-222 | joining the pieces with the separator gives the string back |
| Text.JoinSplitRoundTrip | generate_data.py:47 | splitting a join of separator-free pieces gives the pieces back |
| Text.JoinWithout | generate_data.py:47 | a join contains a character only if a piece or the separator does |
| Text.NatToString | src/components/statistics.rs:110-114 | a decimal rendering is non-empty, all digits, without leading zero |
| Text.NatToStringRoundTrip | src/components/statistics.rs:110-114 | reading the rendering back gives the number |
| Text.NatToStringInjective | src/components/statistics.rs:110-114 | distinct numbers render differently |

## Left out

- Browser local storage may be missing, and `set_item`/`remove_item` may fail. The model always has a store and every write succeeds.
- serde_json itself is not modelled. The codec is abstract, and round-tripping is assumed only for the record and key list a lemma writes (`Codec.RecordRoundTrips`, `Codec.KeysRoundTrip`), never for all values at once: exact reals cannot all be encoded in finite text.
- A serialisation failure in `save_session` (src/storage.rs:20, 27) is not modelled.
- `chrono::Utc::now`, `chrono::Local::now` and `js_sys::Date::now` are parameters. The two clock reads in `handle_input` are the parameters `startClockMs` and `nowMs`; they need not be ordered, and the elapsed time saturates at 0.
- The timestamp format string (src/components/practice_interface.rs:243) and the rendering of `Date::now()` as a decimal are not modelled; both are plain strings.
- Storage.SaveThenLoad and Storage.SaveUpdatesStatistics require a key not already listed, and a key list that does not name the key list's own key. Two saves within the same millisecond would reuse the key, and the source then lists it twice; a list naming its own key only arises from a store not written by `save_session`, because session keys never equal that key.
- `f64` is modelled as exact reals: no rounding, NaN or infinity. `f64::max` on NaN is not modelled.
- `usize` and `u64` overflow are not modelled. Neither is the `i64 as u64` cast of a clock before 1970; the clocks are naturals.
- Typing.Accuracy: requires `errors <= totalTyped`, which every session the code builds satisfies. The source would panic in debug builds on the subtraction otherwise.
- Rust's `binary_search_by_key` probe order is not modelled. The table's keys are unique, so any hit returns the same row.
- The generator's file reading and the Rust syntax it writes (file header, quoting) are not modelled: the model produces the table rows.
- Toasts, badges, styling and the rest of the markup are not modelled. The statistics page's card values are only the `Statistics` fields.
- Dioxus signals, re-rendering and concurrency are not modelled. Each handler runs to completion on the component's fields.
- Typing.UpdateInputCountsCharacters and Typing.NextExerciseResets restate the unit tests with inline assertions, so they have no contract.

## Findings

| source | as written | input that shows it | evidently intended | confidence | as-written member | corrected member |
|---|---|---|---|---|---|---|
| src/components/practice_interface.rs:217 | `CodeDisplay` splits on `'\|'`, but generate_data.py:47 joins a character's codes with `","` | a character with codes "ab" and "c": the table holds "c,ab", shown as the single keycap "c,ab" | the generator joins with `\|`, a character no Array30 key produces (the comma is itself a key), so each code is shown apart: "c / ab" | medium, not executed | Practice.CommaListExample | Practice.PipeCodesShownApart |
