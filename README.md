# Edu-Translator core rules, modelled in Dafny

Edu-Translator is a Streamlit classroom tool (`app.py`). It wraps a
language-model service behind forms for English–Arabic translation practice.
Almost all of it is widget wiring and prompt text. This project models the
deterministic rules inside that file and proves what they guarantee:

- **Opening-hours gate** (`AccessGate`). `_in_window(open_start, open_end)`
  reads two `"H:M"` bounds and compares the time of day with them. Every
  exception makes it fail open. The clock reading is a parameter (`Clock`).
- **Script detection** (`Script`). `is_arabic_text` searches for a character
  in U+0600–U+06FF. The Translate tab uses it to choose the source and
  target languages.
- **Record store** (`Records`). `append_log` and `save_row` are the same code:
  read the whole table, add one row, rewrite the file. A pure `Files` value
  describes the effect. The `RecordStore` class does the update in place.
- **Assignments** (`Assignments`):
  - `new_code`, the assignment code;
  - the "Create assignment" guard and the row it writes;
  - the student's list of their group's assignments, oldest first, and the
    entry the select box picks by default.
- **Quick Quiz** (`Quiz`). The session quiz is a class with its items, score
  and total. It has "Create quiz" and one "Check" per item.
- **Python string behaviour** (`PyStr`). The rules rest on `strip()`,
  `split()`, `split(":")`, `upper()`, `lower()`, `startswith()` and `int()`.
  These are modelled on code points.

Inputs that come from outside the program are parameters:

- the time of day;
- the UUID, as its 32 hex digits;
- the timestamp string of `now_str()`;
- the machine draft the language model returns;
- the quiz items after JSON parsing.

### Where the model follows the code rather than its description

The gate is described as failing open whenever a bound names an invalid hour
or minute. The code does that only for the **start** bound.

- `_time(sh, sm) <= now <= _time(eh, em)` is a chained comparison, and it
  short-circuits. `_time(eh, em)` is never built while `now` is earlier than
  the start.
- So when the end bound reads as two integers that are not a valid time, the
  gate is shut before the start time.
- After the start time, building `_time(eh, em)` raises ValueError, and the
  gate is open for the rest of the day.

`InWindow` models this and `EndOutOfRange` states it.

Other points where the model follows the code:

- A group code that is not empty but is all whitespace makes `new_code` raise
  IndexError. Nothing catches it.
- A gap-fill quiz item whose `answer` is JSON `null` makes "Check" raise
  AttributeError.
- The model keeps these crashes as outcomes (`NoGroupWord`, `Crashed`). It
  does not turn them into warnings.

## Model

| member | source | states |
|---|---|---|
| PyStr.Strip | app.py:537 | `strip()` is empty exactly for a blank string; otherwise it neither starts nor ends with whitespace and is no longer than its input |
| PyStr.StripIdempotent | app.py:537 | stripping twice is stripping once |
| PyStr.StripPadded | app.py:455 | whitespace padding on either side does not change `strip()` |
| PyStr.StripUpper | app.py:454-455 | upper-casing commutes with `strip()` |
| PyStr.Words | app.py:492 | `split()` yields only non-empty words without whitespace; `WordsLead` says which words |
| PyStr.WordsBlankPrefix | app.py:492 | `split()` skips leading whitespace |
| PyStr.TakeWordOf | app.py:492 | a run of non-whitespace ended by whitespace or by the end of the string is taken whole as one word |
| PyStr.WordsLead | app.py:492 | after leading whitespace, the maximal run of non-whitespace is the first word of `split()`, and the remaining words are those of the rest of the string |
| PyStr.WordsOfBlank | app.py:492 | `split()` is the empty list exactly when the string is blank, which is when `[0]` raises |
| PyStr.WordsOfWord | app.py:492 | a single word without whitespace splits into itself |
| PyStr.SplitOn | app.py:65 | `split(":")` gives at least one field, and no field holds a ':' |
| PyStr.JoinSplit | app.py:65 | joining the fields of `split(sep)` with `sep` gives the string back |
| PyStr.SplitCount | app.py:65 | `split(sep)` has one more field than the string has separators |
| PyStr.SplitPair | app.py:65 | `x + ":" + y` with no ':' in x or y splits into exactly `[x, y]` |
| PyStr.Upper | app.py:492-493 | `upper()` keeps the length and whitespace, leaves no lower-case ASCII letter, and is the same text when case is ignored |
| PyStr.Lower | app.py:454-455 | `lower()` keeps the length and whitespace, leaves no upper-case ASCII letter, and is the same text when case is ignored |
| PyStr.LowerOfUpper | app.py:454-455 | lower-casing forgets an upper-casing |
| PyStr.Take | app.py:492 | `s[:n]` is the prefix of length `min(len(s), n)` |
| PyStr.ParseInt | app.py:65-66 | `int()` of a string: surrounding whitespace, one optional sign and a run of at most 4300 decimal digits (leading zeros counted, underscores not) with single underscores between digits, else ValueError (`None`); an information separator U+001C–U+001F anywhere is a ValueError although `isspace()` counts it as whitespace; `ParseTwoDigits` reads back a `"%02d"` field through it |
| PyStr.ParseIntRejectsSeparator | app.py:65 | `int()` rejects "\x1c5" and "5\x1f" |
| PyStr.DigitCountOfDigits | app.py:65 | in a string of digits every character counts toward the digit limit |
| PyStr.ParseIntRejectsLongRun | app.py:65 | `int()` refuses any run of more than 4300 digits, even all zeros |
| PyStr.StripDropsSeparator | app.py:65 | `strip()`, unlike `int()`, drops a leading information separator as whitespace |
| PyStr.ParseTwoDigits | app.py:65 | `int()` reads back a two-digit `"%02d"` field |
| AccessGate.ParseHM | app.py:65-66 | `map(int, s.split(":"))` into two names: a pair exactly when there are two ':'-fields and both read as integers; otherwise the ValueError that makes the gate fail open |
| AccessGate.ParseHMOfFields | app.py:65-66 | two ':'-fields that read as h and m give the pair (h, m) |
| AccessGate.InWindow | app.py:63-70 | `_in_window` as written; `FailOpen`, `WindowIsInterval`, `InvertedWindowNeverOpen`, `EndMinuteOpenOnlyAtZero` and `EndOutOfRange` state what it answers in each case |
| AccessGate.SeparatorBoundFailsOpen | app.py:63-70 | a start bound "\x1c9:00" cannot be read by `int()`, so the gate is open at every time |
| AccessGate.LongBoundFailsOpen | app.py:63-70 | a start bound whose hour field is more than 4300 digits (e.g. 4301 zeros + ":00") cannot be read by `int()`, so the gate is open at every time, whatever the end bound |
| AccessGate.NotAfterIsEarlier | app.py:68 | comparing `datetime.time` values field by field is comparing instants of the day |
| AccessGate.FailOpen | app.py:63-70 | an unreadable bound, or a start that is not a valid time, opens the gate at every time |
| AccessGate.WindowIsInterval | app.py:63-70 | with valid bounds the gate is open exactly from the first instant of the start minute to the first instant of the end minute, both included |
| AccessGate.InvertedWindowNeverOpen | app.py:68 | a start later than the end never opens: there is no wrap past midnight |
| AccessGate.EndMinuteOpenOnlyAtZero | app.py:67-68 | in the end minute only `:00.000000` is inside, because `now` carries seconds and microseconds |
| AccessGate.EndOutOfRange | app.py:68-70 | an end bound that reads as integers but is not a valid time gives shut before the start and open after it |
| AccessGate.FormatHMRoundTrip | app.py:60-61 | a bound written as "HH:MM" reads back as that hour and minute |
| AccessGate.DefaultHoursShutInLastMinute | app.py:60-70 | with the default bounds "00:00"–"23:59" the gate is open at 23:59:00 and shut at 23:59:30 and 23:59:59.999999 |
| AccessGate.InWindowByMinute | app.py:63-70 | corrected gate: the end bound compared at minute precision; `ByMinuteIsMinuteInterval`, `ByMinuteWidens` and `DefaultHoursOpenAllDayByMinute` state it |
| AccessGate.ByMinuteIsMinuteInterval | app.py:63-70 | corrected gate: valid bounds open it for every instant of the minutes from start to end, both included |
| AccessGate.ByMinuteWidens | app.py:63-70 | whenever the gate as written is open, the corrected gate is open too |
| AccessGate.DefaultHoursOpenAllDayByMinute | app.py:60-61 | with the default bounds the corrected gate is open all day |
| Script.IsArabicText | app.py:94-97 | the search finds a match exactly when some character is in U+0600–U+06FF; the empty text has none |
| Script.ArabicTextNotBlank | app.py:96-97 | a text with an Arabic character is never blank |
| Script.DetectPair | app.py:209-217 | with auto-detect on and a non-blank text, the source is Arabic exactly when the text has an Arabic character and the target differs from the source; otherwise the sidebar pair is kept unchanged |
| Script.ArabicAlwaysDetected | app.py:210-212 | with auto-detect on, any Arabic character gives (Arabic, English) |
| Records.Read | app.py:126-127 | `pd.read_csv(path)` of an existing file, the empty table for a missing one; `Appended` and `ReplayIsLog` state what it reads after appends |
| Records.Appended | app.py:484-489 | one append: the table at the path is the old table (empty when there was no file) followed by the row; the file exists afterwards and no other file changes |
| Records.ReplayIsLog | app.py:124-129 | after any run of appends across files, each table is its old rows followed by exactly the rows appended to it, in order |
| Records.RecordStore.constructor | app.py:91-92 | `makedirs(..., exist_ok=True)` keeps whatever tables an earlier run left in the log directory: the store starts as exactly those files |
| Records.RecordStore.Append | app.py:124-129 | the store after `append_log(path, row)` is `Appended` of the store before it, and the table gains exactly that row at its end |
| Assignments.CodeWord | app.py:492 | the word part is 1 to 6 characters without whitespace, and it is missing exactly for a blank non-empty group code; `CodeWordOfFirstToken` says which characters |
| Assignments.CodeWordOfFirstToken | app.py:492 | the word part is the first whitespace-separated word of the group code, cut to 6 characters and upper-cased, whatever follows it |
| Assignments.CodeWordOfTwoWords | app.py:492 | group code "eng201 sec" gives the word part "ENG201" |
| Assignments.CodeSuffix | app.py:493 | the UUID part is 4 upper-case hex digits that lower-case back to the UUID's first 4 digits |
| Assignments.NewCode | app.py:491-493 | `new_code()` raises (`NoGroupWord`) exactly for a blank non-empty group code; `NewCodeShape` gives the shape of a code and `NewCodeValue` the whole code |
| Assignments.NewCodeValue | app.py:491-493 | for a group code whose first whitespace-separated word is w, the code is w cut to 6 characters and upper-cased, then '-', then the UUID's first 4 digits upper-cased |
| Assignments.NewCodeShape | app.py:491-493 | `new_code` fails exactly for a blank non-empty group code; a code is 6 to 11 characters, with '-' fifth from the end, a word part without whitespace, and 4 upper-case hex digits from the UUID |
| Assignments.CodeWordOfWord | app.py:492 | a one-word group code of at most 6 characters with no lower-case letter is the word part as typed |
| Assignments.NewCodeOfGroup | app.py:491-493 | group "ENG201" gives codes starting "ENG201-" |
| Assignments.NewCodeWithoutGroup | app.py:492 | no group code gives codes starting "ASSGN-" |
| Assignments.NewCodeOfBlankGroup | app.py:492 | a group code of spaces makes `new_code` raise |
| Assignments.AssignmentRecord | app.py:519-524 | the thirteen-column row `save_row` receives; `RecordFields` reads each column back |
| Assignments.RecordFields | app.py:519-524 | all thirteen columns of the assignment row read back as written: timestamp, code, title, mode, source and target language names, domain, tone, deadline, text, machine draft, instructor name and group as typed |
| Assignments.CreatedRow | app.py:509-524 | the row "Create assignment" writes, or why it writes nothing; `CreateOutcome` states each case |
| Assignments.CreateOutcome | app.py:509-524 | creation is refused for an empty title or text and fails for a blank non-empty group; otherwise the row stores the group as typed, the timestamp, title, text, mode and the code from `new_code`, and the machine draft only in a "Post-edit" mode with the box ticked |
| Assignments.CreateAssignment | app.py:508-524 | on refusal or failure no file changes; on success exactly one row, the created row, is appended to logs/assignments.csv and its code is returned |
| Assignments.InGroup | app.py:544-545 | the group filter keeps every row whose stored group equals the code, as often as it is stored, and no other row |
| Assignments.StrLeTransitive | app.py:555 | timestamp order is transitive |
| Assignments.StrLeAntisymmetric | app.py:555 | two timestamps each no later than the other are equal |
| Assignments.InsertByStamp | app.py:555 | inserting into a list sorted by timestamp keeps it sorted and adds exactly that row |
| Assignments.SortByStamp | app.py:555 | `sort_values('timestamp')` gives a sorted permutation of its input |
| Assignments.Directory | app.py:537-555 | a blank group code lists nothing; otherwise the list holds exactly the stored rows of the stripped group, each as often as stored, in timestamp order |
| Assignments.ListedIff | app.py:537-545 | a row is listed exactly when the group code is not blank, the row is stored, and its group equals the stripped code |
| Assignments.NoFileNoAssignments | app.py:541-545 | a missing assignments file lists nothing |
| Assignments.Label | app.py:556 | the option text `code — title (due: deadline)` of a row; `SharedLabelPicksFirst` shows why equal labels matter |
| Assignments.Labels | app.py:556 | there is one option per listed row, and option i is the label of row i |
| Assignments.IndexOf | app.py:561 | `options.index(pick)` is the first position holding the pick |
| Assignments.SelectedRow | app.py:561 | the row of a picked option is the first listed row with that label |
| Assignments.DefaultSelection | app.py:557-561 | nothing is picked exactly when the list is empty; otherwise the pick is the first listed row carrying the label of the last option |
| Assignments.SharedLabelPicksFirst | app.py:556-561 | when two listed rows share a label, the default pick is the first of them, not the later one |
| Assignments.NewestOfSortedIsDefault | app.py:555-561 | in a sorted list, a row strictly newer than all others and with a unique label is the default pick |
| Assignments.NewestIsDefault | app.py:537-561 | the strictly newest listed assignment with a unique label is the default pick |
| Assignments.LaterOfTwoIsDefault | app.py:537-561 | of two assignments of a group whose labels differ, the one with the strictly later timestamp is the default, in either storage order |
| Assignments.OneAssignmentListing | app.py:537-555 | a store with one assignment lists it for its own group code and for no other |
| Assignments.OwnGroupSeesAssignment | app.py:508-555 | an assignment created for "ENG201-1" is listed for "ENG201-1" and not for "ENG201-2" |
| Assignments.PaddedGroupNeverListed | app.py:523 | an assignment created under a group code with whitespace at an end is listed for no group code |
| Assignments.StrippedCreateIsListed | app.py:537 | corrected creation fails only for a missing title or text, and the new row is listed for every group code that strips to the same non-blank group |
| Quiz.Normalize | app.py:454-455 | `.strip().lower()`: empty exactly for blank text, no whitespace at either end, no upper-case ASCII letter |
| Quiz.Judge | app.py:441-459 | the verdict of "Check": it crashes exactly for a gap item whose answer is null; `McqJudge` states the multiple-choice verdict; for a gap with a string answer `GapAcceptsAnswer` and `GapRejectsOther` state acceptance and rejection by the `.strip().lower()` forms, `GapIgnoresPaddingAndCase` the invariance, and `GapWithoutAnswer` the missing and null answers |
| Quiz.McqJudge | app.py:443-449 | a multiple-choice item is right exactly when the choice equals the answer; with no answer it is right only when there are no options; it never crashes |
| Quiz.UnreachableAnswer | app.py:442-445 | an answer that is not among the options can never be picked right |
| Quiz.GapIgnoresPaddingAndCase | app.py:454-455 | a gap is marked the same whatever whitespace surrounds the reply and whatever its ASCII case |
| Quiz.NormalizePaddedUpper | app.py:454-455 | `.strip().lower()` forgets padding and upper-casing |
| Quiz.GapAcceptsAnswer | app.py:453-456 | the stored answer, upper-cased and padded, is accepted |
| Quiz.GapRejectsOther | app.py:453-459 | a reply whose `.strip().lower()` differs from the stored answer's is marked wrong |
| Quiz.GapWithoutAnswer | app.py:454 | a gap with no answer accepts exactly the blank replies; a null answer crashes whatever is typed |
| Quiz.QuizSession.constructor | app.py:407-410 | the first visit starts with no items, score 0 of 0 |
| Quiz.QuizSession.Create | app.py:412-436 | a blank target changes nothing; otherwise the items are replaced, the score is 0 and the total is the number of items; the total stays the number of items and the score stays non-negative |
| Quiz.QuizSession.Check | app.py:439-460 | the verdict is the item's judgement of the reply; the score rises by exactly 1 for a right answer, items and total stay as they were, and the total stays the number of items |
| Quiz.RepeatedCheckOvercounts | app.py:443-457 | one item checked right twice gives score 2 of total 1 |
| Quiz.PositionsBound | app.py:436 | a set of item positions below n has at most n members |
| Quiz.FairQuizSession.Score | app.py:461 | corrected score: never more than the total |
| Quiz.FairQuizSession.Check | app.py:439-460 | corrected check: same verdict, and the item joins the solved set exactly when right |
| Quiz.RepeatedCheckCountsOnce | app.py:443-457 | corrected score: one item checked right twice gives 1 of 1 |

## Left out

- The language-model calls (`llm`, app.py:105-114) and every prompt. The machine draft is a parameter of "Create assignment". The quiz items arrive already parsed. JSON parsing, `data.get("items", [])` on a non-list, and items that are not objects are left out. So are `options` or `answer` values that are neither strings nor null.
- Widgets, tabs, styling, file uploads and their decoding, the class and instructor passwords, and session ids: this is interface wiring.
- The regex split over the model's analysis (app.py:272-275) is a best-effort heuristic with no stated behaviour.
- Reflection, translation, glossary and submission rows are built by interface code. They are written through the same `append_log`/`save_row`, which `Records.RecordStore.Append` models. Their column sets are not modelled.
- pandas details are left out:
  - CSV quoting;
  - `read_csv` type inference, for example a numeric group code read back as a number;
  - column drift when `concat` joins tables with different columns;
  - `to_datetime(errors='coerce')` and the place of NaT values;
  - empty cells read back as NaN, which a label shows as "nan" (the model reads them as "").
- Rows are string maps, a missing column reads as "", and timestamps are strings in `now_str`'s `%Y-%m-%d %H:%M:%S` format. For that format, string order is time order.
- Concurrent writers are not modelled. Each append is atomic in the model. In the program, two sessions appending at once can lose a row.
- `@st.cache_data` on `now_str` lets many rows share one timestamp. Timestamps are inputs, and rows with equal timestamps may be listed in any order.
- Assignments.Directory: the order of rows with equal timestamps is not stated, because `sort_values` is not a stable sort.
- PyStr.Upper: only ASCII letters are mapped. Full Unicode case mapping changes lengths (for example 'ß' becomes "SS"), so the 11-character bound of `Assignments.NewCodeShape` holds only for this ASCII model.
- PyStr.Lower: only ASCII letters are mapped, as for `Upper`.
- PyStr.ParseInt: ASCII digits and the two Arabic-Indic digit blocks are accepted. Other Unicode decimal digits are not. The digit limit is fixed at its default of 4300 (Python 3.11 and the 3.7.14 / 3.8.14 / 3.9.14 / 3.10.7 releases on); a limit changed through `sys.set_int_max_str_digits` or `PYTHONINTMAXSTRDIGITS`, and older interpreters without a limit, are not modelled.
- Quiz.QuizSession.Check: the question and explanation texts only feed the display and are not modelled. A crash in one item's check also stops the rest of the page from being drawn, which is not modelled.
- The Submissions tab and the student's submission form after the pick (app.py:563-620) are interface wiring and foreign calls.

## Findings

| source | as written | input that shows it | evidently intended | confidence | as-written member | corrected member |
|---|---|---|---|---|---|---|
| app.py:443-457 | every right "Check" adds a point, so re-checking an item adds again | one gap item, answered right and checked twice: score 2 of 1 | the score counts items answered right and stays at most the total | high, not executed | Quiz.RepeatedCheckOvercounts | Quiz.FairQuizSession.Score |
| app.py:523, app.py:537 | the instructor's group code is stored as typed, the student's is stripped before comparing | group code "ENG201-1 " (trailing space) at creation: the row is listed for no student | both sides compare the stripped group code | medium, not executed | Assignments.PaddedGroupNeverListed | Assignments.StrippedCreateIsListed |
| app.py:60-68 | the end bound is compared with a clock that has seconds and microseconds | default hours "00:00"–"23:59" at 23:59:30: the app is shut | the end minute is inside the window, so the default hours mean open all day | medium, not executed | AccessGate.DefaultHoursShutInLastMinute | AccessGate.ByMinuteIsMinuteInterval |
