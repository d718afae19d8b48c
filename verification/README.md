# Go command-line tools and calendar service, modelled in Dafny

The repository holds three small Go programs and one package:

- **go-grep** (`cmd/grep/main.go`) reads lines and picks the matcher:
  - a regular expression;
  - a regular expression behind a `(?i)` flag;
  - the quoted literal under `-F`.

  It then either counts the selected lines (`-c`) or emits, for every selected line, the window of lines around it. That window is clamped to the input, is never merged with neighbouring windows, and can carry a green line-number prefix (`-n`).
- **go-cut** (`cmd/cut/main.go`) parses a comma-separated field list. It splits every input line at a delimiter, tab by default, and prints the chosen columns joined with tabs. Lines that yield nothing are suppressed, and under `-s` so are lines that lack the delimiter.
- **pkg/event** (`pkg/event/event.go`) defines an event as a user id plus a date, with day, week and month membership tests.
- **the calendar service** (`cmd/calendar/main.go`) keeps events in an in-memory slice. Its HTTP handlers create, update and delete events and list them by period.

The Dafny modules follow that structure:

| module | file | what it holds |
|---|---|---|
| `Wrappers` | wrappers.dfy | `Option` and `Result` |
| `Decimal` | decimal.dfy | `strconv.Itoa`, `strconv.Atoi`, and `fmt.Sscanf` with `%d`, all over the int64 range |
| `Text` | text.dfy | `strings.Index`, `Contains`, `Split`, `Join` |
| `Grep` | grep.dfy | `getRegexp`, `processLines`, `prepareLine`, the `-C` override |
| `Cut` | cut.dfy | `parseFields`, `extractFields`, the per-line policy of `main` |
| `Event` | event.dfy | civil dates with Go's `YearDay`, and `New`, `IncludeInDay`, `IncludeInWeek`, `IncludeInMonth` |
| `Calendar` | calendar.dfy | `parseEventParams` outcomes, and the create / update / delete transitions and the period listing over a `seq<Event>` store |

Everything is a pure function over immutable values. `processLines` and `prepareLine` are also written as methods with the loops of the Go code, and are proved equal to the functional definitions.

The model takes several things as parameters:

- The regular-expression engine: a compiled pattern is a predicate on lines.
- `time.Parse("2006-01-02", ·)`: a function from text to an optional date.
- `time.Now()`: a clock value holding today's date and weekday.
- The request body after `io.ReadAll` and `url.ParseQuery`: decoded form values, or the error text.

Two behaviours of the code are easy to miss:

- **Negative `-A`/`-B`/`-C`.** Negative counts reach `prepareLine` unchanged. There a negative count shrinks the window and can empty it, so the matching line itself may not be printed (`Grep.NegativeCountsShrink`).
- **cut's field list.** `parseFields` reads each piece with `fmt.Sscanf("%d")`, which skips leading blanks, accepts a sign and ignores whatever follows the digits. So `"2x"` selects field 2 (`Decimal.ScanIntIgnoresTrailingText`). Fatal pieces are those with no number after the blanks (a newline counts as no number), numbers ≤ 0, and numbers outside int64.

## Model

| member | source | states |
|---|---|---|
| Decimal.NatToString | cmd/grep/main.go:84 | Itoa of a non-negative count is a non-empty digit string with no leading zero, and it denotes exactly that count |
| Decimal.IntToString | cmd/grep/main.go:112 | the `%d` rendering of an int: a leading minus exactly for negative numbers, digits otherwise |
| Decimal.Atoi | cmd/calendar/main.go:79 | Atoi succeeds exactly on an optionally signed, non-empty run of digits whose signed value lies in int64, and returns that value |
| Decimal.AtoiRejectsInnerText | cmd/calendar/main.go:79-82 | a letter between digits ("1x2") makes Atoi fail |
| Decimal.AtoiIntToString | cmd/calendar/main.go:79 | Atoi reads back every int64 that Itoa writes |
| Decimal.ScanInt | cmd/cut/main.go:57 | a value Sscanf `%d` reads lies in int64; it fails on empty text and on text opening with a newline; text opening with neither a blank nor a newline is read as a number at once |
| Decimal.ScanNumber | cmd/cut/main.go:57 | a number is read only from text opening with a digit, or with a sign followed by a digit, and it lies in int64 |
| Decimal.ScanNumberRejectsOverflow | cmd/cut/main.go:57-61 | a digit run whose signed value lies outside int64 is a range error: nothing is read, so such a piece is fatal |
| Decimal.ScanIntSkipsBlanks | cmd/cut/main.go:57 | any run of blanks before the number is skipped |
| Decimal.ScanIntNeedsDigit | cmd/cut/main.go:57-61 | after the blanks, text that is empty or opens with neither a digit nor a sign followed by a digit fails, so such a piece is fatal |
| Decimal.ScanIntStopsAtNewline | cmd/cut/main.go:57-61 | a newline where the number should start is an error, not a blank |
| Decimal.ScanIntNegative | cmd/cut/main.go:57 | Sscanf `%d` reads back a printed negative int64 followed by any non-digit text |
| Decimal.ScanIntNonNegative | cmd/cut/main.go:57 | Sscanf `%d` reads back a printed non-negative int64 followed by any non-digit text |
| Decimal.ScanIntIntToString | cmd/cut/main.go:57 | Sscanf `%d` reads back any printed int64, whatever non-digit text follows it |
| Decimal.AtoiImpliesScanInt | cmd/cut/main.go:57 | every text Atoi accepts, Sscanf `%d` accepts with the same value |
| Decimal.ScanIntIgnoresTrailingText | cmd/cut/main.go:57-58 | Sscanf `%d` accepts "2x" as 2 where Atoi refuses it |
| Text.Index | cmd/cut/main.go:34 | the result is -1 exactly when the pattern occurs nowhere; otherwise it is the leftmost occurrence |
| Text.Contains | cmd/cut/main.go:34 | true exactly when the pattern occurs somewhere in the text |
| Text.Join | cmd/cut/main.go:74 | the joined text starts with the first part, the separator follows it when there is a second part, and one part joins to itself |
| Text.Split | cmd/cut/main.go:38 | at least one part, no part contains the separator, and every cut is at the leftmost occurrence: no occurrence of the separator starts inside a part that a separator follows |
| Text.OverlappingSeparator | cmd/cut/main.go:38 | a separator that overlaps itself is cut at its leftmost occurrence: "aaa" split at "aa" gives "", "a" |
| Text.JoinSplit | cmd/cut/main.go:38 | joining the parts of a split with the same separator restores the text |
| Text.SplitAtFirst | cmd/cut/main.go:52 | splitting at the first separator gives the text before it, then the parts of the rest |
| Text.SplitJoin | cmd/cut/main.go:52 | splitting on a one-character separator recovers parts joined with it, when no part contains it |
| Grep.GetRegexp | cmd/grep/main.go:48-60 | -F always yields the literal pattern, whatever -i says; otherwise the engine gets the pattern, behind "(?i)" exactly when -i is given |
| Grep.MatchString | cmd/grep/main.go:77 | a literal matches exactly when it occurs somewhere in the line; an expression matches as the engine says |
| Grep.FixedMatchesSubstring | cmd/grep/main.go:50-51 | with -F a line matches exactly when the pattern occurs in it as a substring, and -i changes nothing |
| Grep.ExpressionKeepsPattern | cmd/grep/main.go:52-57 | without -F the engine gets the pattern unchanged, or the four characters "(?i)" followed by the pattern exactly when -i is given |
| Grep.FixedDotIsLiteral | cmd/grep/main.go:50-51 | under -F a dot is a literal: "a.b" matches "xa.b" but not "axb" |
| Grep.Selects | cmd/grep/main.go:76-80 | a line is kept exactly when its match result differs from -v |
| Grep.EffectiveContext | cmd/grep/main.go:24-27 | a non-zero -C becomes both counts; with -C 0 the -A and -B counts are kept |
| Grep.ContextOverrides | cmd/grep/main.go:24-27 | a non-zero -C makes the output that of -A C -B C whatever -A and -B say; with -C 0 both are used unchanged |
| Grep.Window | cmd/grep/main.go:99-107 | the clamped bounds never leave the input, and the window holds exactly the input lines at most before lines before and after lines after the match |
| Grep.WindowHoldsMatch | cmd/grep/main.go:99-107 | with non-negative counts, 0 <= start <= index < end <= number of lines |
| Grep.NegativeCountsShrink | cmd/grep/main.go:99-110 | negative counts only shrink the window, and a negative -A drops the matching line itself |
| Grep.FormatLine | cmd/grep/main.go:111-115 | without -n the entry is the line itself; with -n it opens with the green escape, ends with a newline, and the line text sits just before that newline |
| Grep.ParseFormatLine | cmd/grep/main.go:112 | a numbered entry reads back as its number and its text, so the green prefix, colon and reset are unambiguous |
| Grep.Block | cmd/grep/main.go:109-117 | a block has one entry per window line, in ascending order, each rendering that line with the number index + 1 |
| Grep.PrepareLine | cmd/grep/main.go:98-118 | the loop over the clamped window produces exactly the block of that window |
| Grep.PlainBlockIsSlice | cmd/grep/main.go:115 | without -n a block is the slice of the input the window covers, verbatim |
| Grep.NumberedBlockCarriesMatchNumber | cmd/grep/main.go:111-113 | with -n every entry of a block, context lines included, carries the matching line's number index + 1 and not its own |
| Grep.SelectedIndices | cmd/grep/main.go:88-94 | the selected positions are strictly increasing, each is selected, and every selected position is listed |
| Grep.MatchingLines | cmd/grep/main.go:75-81 | the collected lines are the input lines at the selected positions, in input order |
| Grep.CollectMatching | cmd/grep/main.go:75-81 | the first loop of processLines collects exactly the selected lines |
| Grep.Windows | cmd/grep/main.go:87-95 | the output length is the sum of the window sizes of the match positions: no window is merged or trimmed |
| Grep.EmitWindows | cmd/grep/main.go:87-95 | the second loop appends the block of every selected line in input order |
| Grep.Search | cmd/grep/main.go:74-96 | count mode gives one entry, the decimal number of selected positions; normal mode with nothing selected gives nothing |
| Grep.ProcessLines | cmd/grep/main.go:74-96 | processLines returns the count entry in count mode and the concatenated blocks otherwise |
| Grep.SelectedIndicesCount | cmd/grep/main.go:75-84 | the number of windows emitted equals the number of distinct selected lines |
| Grep.CountModeReportsSelected | cmd/grep/main.go:83-85 | count mode returns one entry holding the decimal number of selected lines, independent of -A, -B and -n |
| Grep.FixedCountsContainingLines | cmd/grep/main.go:39-41 | with -F -c, the matcher getRegexp builds reaches processLines and the count is the number of lines holding the pattern as a substring, whatever -i says |
| Grep.EmptyInput | cmd/grep/main.go:74-96 | empty input gives ["0"] in count mode and nothing in normal mode |
| Grep.WindowsWithoutContext | cmd/grep/main.go:87-95 | with zero context each window is the selected line alone |
| Grep.PlainSearchIsFilter | cmd/grep/main.go:74-96 | with zero context and no -n, normal mode outputs exactly the lines count mode counts, in order |
| Grep.WindowsLength | cmd/grep/main.go:87-95 | windows are not merged: between one entry and one full window of entries per selected line |
| Grep.PlainOutputComesFromWindows | cmd/grep/main.go:87-95 | every plain output entry is an input line within reach of some selected line |
| Grep.OverlappingWindowsRepeatLines | cmd/grep/main.go:87-95 | two adjacent matches with -A 1 print the shared line twice |
| Grep.TrailingContextScenario | cmd/grep/main_test.go:11-13 | a match in line 1 of 3 with -A 1 gives line1, line2 |
| Grep.LeadingContextScenario | cmd/grep/main_test.go:15-17 | a match in line 3 of 3 with -B 1 gives line2, line3 |
| Grep.InvertScenario | cmd/grep/main_test.go:19-25 | -v keeps the two non-matching lines, and -c -v reports "2" |
| Grep.NumberedScenario | cmd/grep/main_test.go:27-29 | -n on matches in lines 2 and 3 gives the two green-numbered entries |
| Cut.ParsePieces | cmd/cut/main.go:55-63 | success exactly when every piece scans to a number > 0; the indexes are those numbers minus one, in order with duplicates; a failure names an unusable piece |
| Cut.ParsePiecesStopsAtFirst | cmd/cut/main.go:55-62 | the parse fails on the first unusable piece and reports that one, whatever follows |
| Cut.ParseFields | cmd/cut/main.go:51-64 | success exactly when every comma-separated piece is a usable field number; one index per piece, never empty, each below the int64 maximum; a failure names an unusable piece |
| Cut.ParseFieldList | cmd/cut/main.go:51-64 | parseFields reads back every comma-separated list of 1-based field numbers as the 0-based indexes |
| Cut.ParseFieldsKeepsDuplicates | cmd/cut/main_test.go:14-16 | "1,1,2" gives [0, 0, 1] |
| Cut.ParseFieldsRejects | cmd/cut/main.go:57-62 | "0", "1,x" and the empty list are fatal |
| Cut.Picked | cmd/cut/main.go:68-73 | picked columns come from the line, at most one per index; all indexes out of range give none, and all in range give columns[i] for each index i, in the order given |
| Cut.PickedOne | cmd/cut/main.go:70-72 | one index picks its column when it is in range and nothing otherwise |
| Cut.PickedAppend | cmd/cut/main.go:69-73 | the indexes are handled one at a time in the order given: picking for a + b is picking for a, then for b |
| Cut.ExtractFields | cmd/cut/main.go:67-75 | when every index is past the last column the output is empty; when the first index is in range the output starts with that column |
| Cut.ExtractFieldsInRange | cmd/cut/main.go:67-75 | with every index in range and no picked column holding a tab, the output is columns[i] for each index i, in order and with repeats, separated by tabs |
| Cut.ExtractFieldsSplitsBack | cmd/cut/main.go:74 | splitting the output at tabs recovers the picked columns in index order, when no column holds a tab |
| Cut.ExtractFieldsExamples | cmd/cut/main_test.go:31-34 | the four extractFields cases, including "" for an index past the end |
| Cut.DefaultDelimiter | cmd/cut/main.go:27-29 | an empty -d becomes the tab; any other delimiter is kept |
| Cut.CutLine | cmd/cut/main.go:34-43 | a line prints exactly when -s does not exclude it and its extracted output is non-empty; what prints is extractFields of the line split at the delimiter |
| Cut.TabCutRoundTrip | cmd/cut/main.go:38-39 | with the default delimiter, splitting a printed line at tabs gives the selected columns of the input line |
| Cut.UndelimitedLine | cmd/cut/main.go:34-43 | a line without the delimiter prints whole for field 1 without -s, and nothing with -s |
| Cut.CommaInputTabOutput | cmd/cut/main.go:74 | "a,b,c" cut at commas for fields 1 and 3 prints "a\tc": the output joiner is always a tab |
| Cut.CutLines | cmd/cut/main.go:31-44 | at most one output per input line, none of them empty |
| Cut.CutLinesOfOneLine | cmd/cut/main.go:32-43 | one line prints its cut fields or nothing |
| Cut.CutLinesAppend | cmd/cut/main.go:31-44 | lines are processed independently and in order |
| Cut.Cut | cmd/cut/main.go:22-44 | an empty -f is fatal; a failed parse is fatal naming the bad piece; otherwise the output is every line cut with the parsed indexes and the defaulted delimiter, at most one non-empty entry per line |
| Event.YearDay | pkg/event/event.go:23 | the day of the year lies from 1 to 365, or to 366 in a leap year |
| Event.YearDayDeterminesDate | pkg/event/event.go:23 | within a year, the day of the year determines the date |
| Event.New | pkg/event/event.go:14-19 | New stores the given user id and date unchanged |
| Event.IncludeInDay | pkg/event/event.go:22-24 | only days 1 to 365, or 366 in a leap year, hold an event |
| Event.IncludeInWeek | pkg/event/event.go:27-29 | the event lies in one of the days yearDay - weekday to yearDay of the year, and no event lies in a week with a negative weekday |
| Event.IncludeInMonth | pkg/event/event.go:32-34 | a month holding an event is one of 1 to 12, and the event's day of the year falls in that month's run of days |
| Event.MonthIsYearDayRange | pkg/event/event.go:32-34 | for an event of the year, being in a month is the same as its day of the year falling in that month's run of days |
| Event.DayMeansSameDate | pkg/event/event.go:22-24 | an event is in the day of a date exactly when it falls on that date |
| Event.DayWithinMonth | pkg/event/event.go:22-34 | an event in a date's day is in that date's month |
| Event.DayWithinWeek | pkg/event/event.go:22-29 | for any weekday >= 0 the day lies within the week, and with weekday 0 the week is the day alone |
| Event.WeekEndsAtDay | pkg/event/event.go:27-29 | the week never includes a later day, nor another year |
| Event.OtherYearExcluded | pkg/event/event.go:22-34 | an event of another year is in no day, week or month |
| Event.WeekCutAtNewYear | pkg/event/event.go:28 | the week of Thursday 2 January excludes 30 December of the year before |
| Calendar.Get | cmd/calendar/main.go:79 | the first value of a key, or "" when the key is absent or has no value |
| Calendar.ParseEventParams | cmd/calendar/main.go:69-90 | body errors pass through; a bad user_id gives "invalid user_id" before the date is looked at; a bad date gives the date-format message; whenever Atoi reads the user_id and the date parses, the result is the event of that id and date, and only then |
| Calendar.UnprintedUserID | cmd/calendar/main.go:79-89 | user ids "007" and "+7", which Atoi accepts, both give user 7 |
| Calendar.ParseEventParamsReadsForm | cmd/calendar/main.go:79-89 | a form with a printed user id and a parsable date decodes to exactly that event |
| Calendar.NonNumericUserID | cmd/calendar/main_test.go:46-58 | user_id=abc is refused with "invalid user_id" |
| Calendar.SameEventIsEquality | cmd/calendar/main.go:124 | matching on user id and date is equality of events |
| Calendar.FindFrom | cmd/calendar/main.go:123-124 | the result is -1 or a matching position at or after the start, and no earlier position from the start matches |
| Calendar.FindEvent | cmd/calendar/main.go:123-124 | the search finds the first stored copy of the event, and -1 exactly when it is not stored |
| Calendar.CreateEvent | cmd/calendar/main.go:103-113 | a parse failure is a 400 with the store untouched; otherwise the event is appended after the unchanged earlier events and the reply is "event created" |
| Calendar.UpdateEvent | cmd/calendar/main.go:116-132 | the store never changes; the reply is "event updated" exactly when the event is stored, else 400 "event not found" or the parse error |
| Calendar.DeleteEvent | cmd/calendar/main.go:135-151 | the first stored copy is removed and the rest keep their order, leaving one fewer event; with no match the store is untouched and the reply is 503 "event not found" |
| Calendar.DeleteUndoesCreate | cmd/calendar/main.go:110-144 | deleting a just-created event that was not stored before restores the store |
| Calendar.DeleteAfterCreateKeepsContents | cmd/calendar/main.go:110-144 | create then delete of the same event keeps the multiset of events |
| Calendar.UpdateAfterCreateFinds | cmd/calendar/main.go:110-128 | an update right after a create reports "event updated" |
| Calendar.SingleEventScenarios | cmd/calendar/main_test.go:92-131 | updating and deleting the one stored event succeed, deleting leaves an empty store, and a different user id is not found |
| Calendar.ParsePeriod | cmd/calendar/main.go:154-194 | "" is "missing period parameter"; day, week and month are recognised; anything else is the invalid-period error |
| Calendar.InPeriod | cmd/calendar/main.go:166-184 | every period lies in the current year; the day period is exactly today's date; the week never passes today |
| Calendar.InPeriodIsEventPredicate | cmd/calendar/main.go:166-184 | the handler's inline conditions are IncludeInDay, IncludeInWeek and IncludeInMonth applied to now |
| Calendar.Filter | cmd/calendar/main.go:165-190 | the kept events are exactly the stored events that pass, with their multiplicities |
| Calendar.FilterSnoc | cmd/calendar/main.go:165-172 | one more stored event adds itself to the end of the listing when it passes, and nothing otherwise |
| Calendar.FilterAppend | cmd/calendar/main.go:165-172 | filtering keeps the store's order |
| Calendar.FilterKeepsAll | cmd/calendar/main.go:165-172 | when every event passes, the listing is the store itself |
| Calendar.GetEvents | cmd/calendar/main.go:153-197 | a missing or unknown period is a 400 with its message; otherwise the listing holds exactly the stored events in the period, each as often as it is stored, and nothing else |
| Calendar.DayIsToday | cmd/calendar/main.go:164-172 | the day listing is exactly the events dated today, each as often as it is stored |
| Calendar.DayWithinWeekAndMonth | cmd/calendar/main.go:164-190 | what the day listing returns, the week and month listings return too |
| Calendar.MonthScenario | cmd/calendar/main_test.go:61-87 | two events of today and one of 2024-10-23 give the two of today in the month listing |

## Left out

- Reading standard input, flag parsing, the usage check on `os.Args`, `log.Fatal` exits, and printing. Each tool's result is the sequence of entries it would print. `fmt.Print` runs plain grep lines together with no newline; cut's `fmt.Println` adds one. Both are properties of the output sink.
- Grep.MatchString: the regular-expression engine (Go's RE2 syntax and matching, and the panic of `regexp.MustCompile` on a bad pattern) is a parameter. Only `-F` matching is concrete: `regexp.QuoteMeta` makes the pattern a literal, which is modelled as substring containment.
- Text as characters: Go strings are bytes, while the model's strings are sequences of Unicode characters, so input that is not valid UTF-8 cannot be written down at all. For such text, `-F` is not plain substring containment: `regexp.MustCompile(regexp.QuoteMeta(p))` panics when `p` is not valid UTF-8, and Go's regexp reads each invalid byte of a line as U+FFFD. Byte offsets and character offsets also differ, which does not change which lines or columns are selected for valid UTF-8.
- Grep.GetRegexp: the `(?i)` prefix is modelled as text, so case folding is part of the abstract engine.
- The HTTP layer of the calendar:
  - `ListenAndServe`, routing, `logMiddleware` with its clock readings, and request body reading;
  - `url.ParseQuery`, which is modelled by its outcome;
  - JSON encoding in pkg/httphelper/httphelper.go, where replies are modelled as a status and a message or payload.
- Calendar.ParseEventParams: `time.Parse` is a parameter. A `time.Time` is modelled by its calendar date, because the layout carries no clock time or zone, and so equal dates give equal values.
- Calendar.GetEvents: the listing holds the events themselves. The response's `Date.Format("2006-01-02")` text is not modelled.
- `time.Now()` is a parameter: the date and weekday it returns.
- Concurrency: the handlers mutate the shared slice without locking. The store is modelled as one transition at a time.
- YAML configuration (`NewConfig` and internal/config/config.go) is file I/O and a foreign decoder.
- cmd/calendar/calendar.go is an older copy of the same handlers with the same store logic. It is not part of this model.
- Integer widths: Go's `int` is 64 bits here. Atoi and Sscanf reject values outside int64, as modelled. Elsewhere Dafny's unbounded integers stand for Go ints. Line counts and line numbers stay far from the bounds, but the -A, -B and -C values can be any int64.
- Grep.Window: does not model the 64-bit wrap of `index - before` and `index + after + 1` in `prepareLine`. For example, `-A 9223372036854775807` makes `end` wrap to the int64 minimum, so Go prints nothing where the model prints the matching line. `-B -9223372036854775808` wraps `start` below zero instead, so Go prints from the first line where the model prints nothing. The model's windows are those of counts whose sums stay inside int64.
