# Typing-speed widget: a Dafny model of its state rules

The widget in `script.js` runs a typing test in the browser. Pressing Enter starts a test.
On every input event it counts the words and the wrong words. Enter again ends the test and
stores the result on a five-entry leaderboard. Starting a test also records the day in a
login log. A calendar marks the logged days, and an alert appears when yesterday is missing.

This project models the rules behind those features. Each one becomes a Dafny module:

- `DateKeys` (date_keys.dfy): the `Y-M-D` key written for a date. The month is 1-based and no
  field is padded. The module also has a parser for the key, proving that the key format
  loses nothing.
- `LoginDays` (login_days.dfy): the login log, kept as the `LoginLog` class. The key is added
  only if absent, and the missed-day alert is recomputed from yesterday's key. The constructor
  stands for page load: it takes the stored list and runs the missed-day check once.
- `Calendar` (calendar.dfy):
  - the padded `daysArray` and the loop that turns it into day cells;
  - the previous/next month buttons, which update `currentMonth`/`currentYear` held in the
    `MonthNavigator` class.
- `ElapsedTime` (elapsed_time.dfy): the split of elapsed milliseconds into minutes and seconds,
  using JavaScript's truncating `%`.
- `WordCount` (word_count.dfy):
  - `trim()` and `split(/\s+/)`, over JavaScript's whitespace set;
  - ASCII lower-casing;
  - the wrong-word filter.
- `Leaderboard` (leaderboard.dfy): push, stable descending sort by wpm, and keep five.
  - The sort is an in-place insertion sort over an array, proved equal to a functional
    specification `SortByWpm`.
  - Any sorted, stable arrangement is shown to equal that specification. So the choice of
    sorting algorithm does not matter, provided it is stable, as `Array.prototype.sort` is.
- `TypingSession` (session.dfy): the `started`, `errorCount` and `totalTyped` globals, held in
  the `Session` class, and the keydown, input, start and end handlers.

Things the browser supplies become parameters:

- today's and yesterday's dates;
- the weekday of the 1st and the number of days in the month;
- the text-area value;
- the word list `dictionary`;
- the elapsed milliseconds;
- the lists loaded from storage.

Behaviour of the code that the model keeps and proves:

- An empty or blank text area still yields one word, `""`. It therefore shows one error unless
  the dictionary holds the empty string (`WordCount.BlankTextErrors`).
- A negative elapsed time, from a clock set backwards, shows `-1m -1s` at minus one second. This
  happens because `Math.floor` and `%` round differently. In general a negative count of whole
  seconds that is not a multiple of 60 shows one minute less than it is
  (`ElapsedTime.TimeDisplayTotal`).
- A day is recorded when a test starts, on the first Enter (script.js:33-41, 129-136), not when
  it ends.
- The missed-day alert looks only at yesterday's key (script.js:152-162); earlier gaps in the log
  raise no alert.
- Accuracy is not clamped (script.js:53-56): `errorCount` counts wrong words while `totalTyped`
  counts input events, so pasting several wrong words in one event gives a negative accuracy,
  and that value reaches the leaderboard unchanged.

## Model

| member | source | states |
|---|---|---|
| DateKeys.NatToString | script.js:131 | a number prints as at least one decimal digit, with no leading zero unless it is 0 |
| DateKeys.IntToString | script.js:131 | a printed year starts with '-' exactly when it is negative |
| DateKeys.NatToStringRoundTrip | script.js:131 | reading the printed digits back gives the number |
| DateKeys.ParseNatToString | script.js:131 | parsing a printed number gives the number back |
| DateKeys.DateKey | script.js:131 | the key splits at '-' into the unpadded decimal year, month + 1 and day, after a leading '-' when the year is negative |
| DateKeys.DateKeyRoundTrip | script.js:131 | the `year-(month+1)-day` key can be parsed back into the same date |
| DateKeys.DateKeyInjective | script.js:117 | two different dates never get the same key, though nothing is zero-padded |
| LoginDays.WithDay | script.js:132-133 | the new log contains today's key, keeps every old key, and has at most one more entry; duplicate-free stays duplicate-free |
| LoginDays.WithDayIdempotent | script.js:132-133 | recording the same day twice equals recording it once |
| LoginDays.RecordAllNoDuplicates | script.js:129-138 | any series of recordings from a duplicate-free log stays duplicate-free and holds exactly the old and recorded keys |
| LoginDays.MissedAlert | script.js:157-161 | the alert is the bell message exactly when yesterday's key is absent, and empty exactly when it is present |
| LoginDays.LoginLog.constructor | script.js:221-224 | at page load the log is the stored list (script.js:30) and the missed-day check has run once: the alert is set iff yesterday's key is not stored |
| LoginDays.LoginLog.CheckMissedDays | script.js:152-162 | sets the alert from yesterday's key; it is non-empty iff that key is missing |
| LoginDays.LoginLog.RecordLoginDay | script.js:129-136 | afterwards today's key is logged; an already-logged day leaves log and alert unchanged, otherwise the key is appended and the alert recomputed |
| Calendar.DaysArray | script.js:109 | length is firstDay + daysInMonth, the first firstDay slots are blank, and slot firstDay + i holds day i + 1 |
| Calendar.DaySlotPosition | script.js:109 | day d appears at slot k exactly when 1 <= d <= daysInMonth and k = firstDay + d - 1 |
| Calendar.RenderCalendar | script.js:104-123 | one cell per slot: padding cells are empty, and the cell of day d is marked exactly when that day's key is in the log |
| Calendar.PrevMonth | script.js:141-142 | the month stays in 0..11, the month count drops by one, and the year drops only when leaving January |
| Calendar.NextMonth | script.js:147-148 | the month stays in 0..11, the month count rises by one, and the year rises only when leaving December |
| Calendar.PrevNextInverse | script.js:140-150 | next after previous, and previous after next, restore month and year |
| Calendar.NextMonthsIndex | script.js:146-150 | n presses of next advance the month count by n; twelve presses give the same month a year later |
| Calendar.MonthNavigator.constructor | script.js:101-102 | navigation starts at today's month and year |
| Calendar.MonthNavigator.OnPrevMonth | script.js:140-144 | the previous-month button moves the shown month as PrevMonth says and keeps it valid |
| Calendar.MonthNavigator.OnNextMonth | script.js:146-150 | the next-month button moves the shown month as NextMonth says and keeps it valid |
| ElapsedTime.JsRemainder | script.js:90 | `%` leaves the dividend minus the truncated quotient times the divisor: smaller in size than the divisor and of the dividend's sign |
| ElapsedTime.JsRemainderUnique | script.js:90 | those conditions determine the remainder and the truncated quotient |
| ElapsedTime.FloorDiv | script.js:88-89 | `Math.floor(a / b)` is the q with q*b <= a < q*b + b |
| ElapsedTime.TimeDisplay | script.js:87-91 | for a non-negative elapsed time, seconds are in 0..59, minutes are non-negative, and minutes*60 + seconds is the whole seconds elapsed |
| ElapsedTime.TimeDisplayUnique | script.js:88-90 | the display is the only (minutes, 0..59) pair whose total is the whole seconds elapsed |
| ElapsedTime.TimeDisplayTick | script.js:70-71 | one more second elapsed ticks the seconds field, carrying into minutes at 60 |
| ElapsedTime.TimeDisplayTotal | script.js:88-90 | for every elapsed time, minutes*60 + seconds is the whole seconds elapsed, or one minute less when that count is negative and not a multiple of 60 |
| ElapsedTime.NegativeElapsedShowsBothNegative | script.js:88-90 | one second before the start shows minus one minute and minus one second |
| WordCount.Trim | script.js:44 | the trimmed text is a slice of the text with a blank prefix and a blank suffix removed; it is empty exactly when the text is blank, and otherwise starts and ends with a non-space |
| WordCount.SplitOnSpaces | script.js:44 | splitting yields at least one piece and no piece holds whitespace |
| WordCount.Words | script.js:44 | trim-then-split yields at least one word and no word holds whitespace; a blank text yields exactly the one word "", any other text only non-empty words |
| WordCount.SplitKeepsLetters | script.js:44 | the pieces of a split, written together, are the text with its whitespace removed |
| WordCount.WordsKeepLetters | script.js:44 | the words of any text, written together, are its non-whitespace characters |
| WordCount.SplitJoinRoundTrip | script.js:44 | splitting non-empty words joined by arbitrary non-empty whitespace runs gives the words back |
| WordCount.WordsOfJoined | script.js:44 | the words of a text made of non-empty words separated by whitespace runs, with any whitespace before and after, are exactly those words |
| WordCount.ToLower | script.js:48 | lower-casing keeps the length, leaves no letter A-Z, keeps every other character, and moves a changed character up by 32 |
| WordCount.Known | script.js:48 | a word is known iff the dictionary has an entry without upper-case letters that equals the word up to the case of ASCII letters |
| WordCount.CaseBlind | script.js:48 | two words that differ only in the case of ASCII letters lower-case alike, so both are known or both wrong |
| WordCount.WrongWords | script.js:48 | a word is wrong iff it is a word whose lower-case form is not in the dictionary, and the filter keeps every occurrence of it: each word occurs among the wrong words as often as among the words if unknown, never if known |
| WordCount.KnownWords | script.js:48 | the complement filter: the known words are exactly the words in the dictionary, each with its number of occurrences |
| WordCount.WrongWordsAppend | script.js:48 | filtering distributes over concatenation |
| WordCount.WrongCountIsPositions | script.js:48-49 | the number of wrong words is the number of positions whose word is not in the dictionary |
| WordCount.WrongAndKnownPartition | script.js:48 | every word is either wrong or known, so the two lists together have the words' count and multiset |
| WordCount.ErrorCount | script.js:48-49 | the error count is the number of positions of the split text whose lower-case word is not in the dictionary, and never exceeds the word count |
| WordCount.BlankTextErrors | script.js:44-49 | a blank text area shows one error unless the dictionary holds "" |
| Leaderboard.Insert | script.js:203 | inserting grows the list by exactly one entry |
| Leaderboard.InsertPermutes | script.js:202-203 | the inserted list's multiset is the old one plus e |
| Leaderboard.InsertMembers | script.js:202-203 | every entry after insertion is e or an entry already on the list |
| Leaderboard.InsertStable | script.js:203 | inserting keeps the order of every equal-wpm group and puts e last in its own group |
| Leaderboard.InsertSorted | script.js:203 | inserting into a sorted list keeps it sorted |
| Leaderboard.SortByWpm | script.js:203 | the sort is a permutation of the board with wpm non-increasing |
| Leaderboard.SortStable | script.js:203 | the sort keeps the order of entries with equal wpm |
| Leaderboard.StableSortIsUnique | script.js:203 | any sorted permutation keeping every equal-wpm group's order is SortByWpm's result |
| Leaderboard.SortSortedIsIdentity | script.js:203 | sorting an already sorted board changes nothing |
| Leaderboard.InsertAfterPrefix | script.js:203 | when the entries from index j on are slower than e and the one before j is not, e lands exactly at index j |
| Leaderboard.InsertPosition | script.js:202-203 | on a sorted board the pushed entry lands right after every entry at least as fast |
| Leaderboard.Take | script.js:204 | `slice(0, 5)` keeps min(5, length) entries |
| Leaderboard.TakeKeepsFastest | script.js:204 | in a sorted list every kept entry is at least as fast as every dropped one |
| Leaderboard.BoardAfter | script.js:201-205 | the stored board has min(5, n+1) entries, is sorted, is drawn from the old board plus the new entry, and beats everything dropped |
| Leaderboard.UpdateSortedBoard | script.js:201-205 | the new entry stays on the board exactly when fewer than five stored entries are at least as fast; otherwise the board keeps its first five |
| Leaderboard.TakeInsertPrefix | script.js:202-204 | inserting into the first n entries of a sorted list and keeping n equals inserting into the whole list and keeping n |
| Leaderboard.Replay | script.js:200-207 | the board after any series of tests is sorted and holds at most five entries |
| Leaderboard.ReplayIsTopOfAll | script.js:200-207 | the board after any series of tests is the first five of a stable sort of all of them |
| Leaderboard.OpenGap | script.js:203 | shifts the entries before i that are slower than x one place right, leaving the rest in place |
| Leaderboard.InsertLast | script.js:203 | one insertion step leaves the array's first i+1 cells equal to Insert of the sorted prefix and the next element |
| Leaderboard.SortInPlace | script.js:203 | the in-place sort leaves the array equal to SortByWpm of its old contents |
| Leaderboard.TopFive | script.js:201-204 | push, sort and slice give BoardAfter: at most five entries, sorted |
| Leaderboard.Board.constructor | script.js:201 | the board starts as the stored list |
| Leaderboard.Board.UpdateLeaderboard | script.js:200-207 | the board becomes BoardAfter of the old board and the new entry, and stays sorted with at most five entries |
| TypingSession.Session.constructor | script.js:26-27 | no test is running and both counters are zero |
| TypingSession.Session.OnInput | script.js:43-49 | each input adds one to totalTyped; errorCount becomes the number of wrong words, never more than the words; started is untouched |
| TypingSession.Session.StartTyping | script.js:62-74 | a test is running, both counters are zero, and today's day is recorded in the login log |
| TypingSession.Session.EndTyping | script.js:76-85 | no test is running and the result is stored on the board as BoardAfter says |
| TypingSession.Session.OnKeyDown | script.js:33-41 | Enter toggles started, starting a test when none runs (counters cleared, today logged, the alert refreshed on a new day) and ending it otherwise (the result stored on the board, both counters kept); any other key changes nothing |

## Left out

- DOM work: elements, classes, `innerHTML`, focus and the disabled flag of the text area, and
  the theme toggle (script.js:4-14). These are presentation only. The month and year caption
  of the calendar is also left out (script.js:125-126).
- `displayLeaderboard` (script.js:209-217). It only writes table rows.
- Browser storage and JSON (script.js:30, 134, 201, 205). The lists read back are constructor
  parameters, and a write is the new field value.
- `setInterval`/`clearInterval` (script.js:70, 78). The timer is left out; `TimeDisplay` gives
  what each tick shows for a given elapsed time.
- `Date.now`, `new Date`, `getDay`, the days-in-month computation and `setDate` (script.js:67,
  81, 106-107, 153-156). Their results are parameters.
- The speed and accuracy arithmetic, `Math.round` and the `isFinite` fallbacks (script.js:51-56).
  These are floating point. The model keeps the integer counters they read. The code does not
  clamp accuracy, so no clamp is modelled.
- `parseInt` of the displayed speed and accuracy (script.js:82-83), which can give NaN.
  `EndTyping` takes them as integers.
- `updateGraph` and the chart (script.js:167-195). They call a chart library.
- `dictionary` is not defined in script.js, so it is a parameter (a list of strings).
- The text area's value (script.js:44, 66) is a parameter of the input event and is not kept
  as state. The clearing at the start of a test is therefore not modelled.
- The calendar redraw after recording a day and after each month button (script.js:137, 143,
  149). `RenderCalendar` models one redraw for a given month.
- WordCount.ToLower: lower-cases ASCII letters only. `toLowerCase` also maps other Unicode letters.
- LoginDays.LoginLog.RecordLoginDay: the recorded day and yesterday come in as dates. The
  `yesterday` computed by JavaScript's date arithmetic is not modelled.
- Leaderboard.Entry: wpm and accuracy are integers. In the code they are whatever `parseInt`
  returns, which can be NaN, and NaN compares as neither larger nor smaller.
