# newscat, modelled in Dafny

newscat is a terminal reader for the Hacker News RSS feed. It fetches the
feed, shows the first 30 stories in a table, and then loops over commands:
a story number opens that story's detail panel, `r` refreshes the list and
`q` quits. This project models the logic inside that program and proves
properties of it:

- **the relative-age formatter** `format_time` (module `TimeFormat`). It
  turns an elapsed time into "Nd ago", "Nh ago", "Nm ago", "just now" or
  "unknown". The elapsed time is a whole number of seconds. It is split the
  way Python's `timedelta` splits it: whole days (floor division) plus
  seconds in [0, 86400). Dafny's Euclidean `/` and `%` by a positive
  divisor agree with Python's floor division, including for negative
  durations;
- **the table rows and the detail panel** (module `Feed`). The table keeps
  the first 30 entries and numbers them from 1. Missing fields get the
  defaults "No title", "" (link and comments) and "Unknown" (author);
- **the command loop** `interactive_mode` (module `Interactive`). It is a
  pure `Step` function over the held entry list, a specification function
  `Run` over a script of turns, and a method `InteractiveMode` with the
  source's `while` loop and `break`. The method is proved equal to `Run`;
- **`main`'s control flow** (module `App`). If the first fetch returns
  nothing, the program stops. Otherwise it shows the table, announces
  `min(len(entries), 30)` stories and enters the loop;
- `str(n)`, `str.isdigit()` and `int(s)` over ASCII digits (module
  `Numerals`), and an `Option` type (module `Wrappers`).

The fetch is not performed. Each turn of the loop carries the list that
`fetch_feed` would return at that moment, and an empty list stands for a
failed fetch. The clock is a parameter: an entry's `published` field is an
instant in seconds, and the renderers are given `now`.

Behaviour worth knowing, proved here: a publication time in the future is
never shown in days. It reads as the time of day its offset normalises to,
so a story published one second in the future shows "23h ago", older than
a story published now (`TimeFormat.OneSecondAhead`). For past publication
times the age is monotone (`TimeFormat.AgeMonotone`).

Where the program's own texts and its code differ, the model follows the
code:
- The prompt menu says "a number (1-30)". The code accepts any string of
  digits, leading zeros included. It bounds the number by the length of the
  held list, not by 30. "0" and numbers past the end give "Invalid story
  number!".
- The code compares `choice.lower()` with "q" and "r", so "Q" and "R" work
  as well.

## Model

| member | source | states |
|---|---|---|
| `Numerals.IsDigits` | newscat.py:153 | `choice.isdigit()` on ASCII: a non-empty string of digits; every `str(n)` is one (`Decimal`), and those without a leading zero are exactly the numerals (`DecimalCanonical`) |
| `Numerals.DecimalValue` | newscat.py:154 | `int(choice)` for a digit string: leading zeros do not change the value, so "03" reads as 3 |
| `Numerals.Decimal` | newscat.py:104 | `str(n)` yields a non-empty string of digits without a leading zero |
| `Numerals.DecimalRoundTrip` | newscat.py:153-154 | `int(str(n)) == n`: a shown index read back as a choice is the same number |
| `Numerals.DecimalCanonical` | newscat.py:153-154 | a digit string without a leading zero is `str(int(s))`: answers like "3" are read as the number shown in the table, and only a leading zero gives a second spelling |
| `TimeFormat.Normalise` | newscat.py:64 | the time difference splits into whole days and seconds in [0, 86400) that add up to the elapsed seconds |
| `TimeFormat.NormaliseUnique` | newscat.py:64 | that split is the only one with seconds in [0, 86400), so `days` is the floor of the elapsed time in days |
| `TimeFormat.DaySeconds` | newscat.py:68 | `diff.seconds` lies in [0, 86400) |
| `TimeFormat.AgeOf` | newscat.py:66-73 | days exactly when elapsed >= 1 day, as the number of whole days elapsed (>= 1); otherwise hours (1..23) when the day part is >= 3600 s, minutes (1..59) when it is in [60, 3600), and "just now" below 60 s; each number is the day part rounded down to its unit |
| `TimeFormat.Render` | newscat.py:67-73 | the f-strings: every age but "just now" ends in " ago", and no age reads as "unknown" |
| `TimeFormat.RenderInjective` | newscat.py:67-73 | different ages give different texts, so the text shown fixes the bucket and its number |
| `TimeFormat.FormatTime` | newscat.py:60-74 | the result is "unknown" exactly when the publication time is absent, and otherwise the text of the age `AgeOf` gives the elapsed time |
| `TimeFormat.FormatTimeTexts` | newscat.py:64-73 | for elapsed seconds t: "{t // 86400}d ago" from one day on; below a day, "{(t % 86400) // 3600}h ago" from an hour, "{(t % 86400) // 60}m ago" from a minute, and "just now" below a minute |
| `TimeFormat.AgeUnderstates` | newscat.py:66-73 | for a past publication time the least number of seconds the shown age stands for (`MinSeconds`) never exceeds the elapsed time |
| `TimeFormat.AgeMonotone` | newscat.py:66-73 | for past publication times, more elapsed time never shows a smaller age |
| `TimeFormat.FutureReadsAsDayOffset` | newscat.py:64-71 | a publication time up to one day in the future is never shown in days and reads like its offset plus one day |
| `TimeFormat.OneSecondAhead` | newscat.py:64-73 | one second in the future shows "23h ago", older than "just now" for a story published now |
| `TimeFormat.Examples` | newscat.py:60-74 | absent gives "unknown"; 0 s, 90 s, 2 h and 3 days give "just now", "1m ago", "2h ago", "3d ago" |
| `Feed.Elapsed` | newscat.py:62-64 | the elapsed time exists exactly when the publication time does, and publication plus elapsed is now |
| `Feed.RowOf` | newscat.py:95-105 | the row added for the entry at 1-based position i: its age reads "unknown" exactly when the entry has no publication time; its fields are pinned by `RowDefaults` and `RowIndexReadsBack` |
| `Feed.StoryDetails` | newscat.py:112-117 | the detail panel's fields: "Posted" reads "unknown" exactly without a publication time; its defaults are pinned by `DetailsDefaults` |
| `Feed.ShownCount` | newscat.py:177 | the count shown is `min(len(entries), 30)`: at most 30, at most the list length, and equal to one of them |
| `Feed.DisplayFeeds` | newscat.py:76-108 | an empty list shows only the "no stories" notice; otherwise exactly `min(len, 30)` rows, row i built from entry i-1, with index string `str(i)` that reads back as i |
| `Feed.RowDefaults` | newscat.py:96-99 | a row shows a present title, link or author unchanged and "No title", "", "Unknown" for a missing one; its time is "unknown" exactly when the publication time is missing |
| `Feed.DetailsDefaults` | newscat.py:113-117 | the detail panel applies the same defaults, and "" for missing comments |
| `Feed.RowAgreesWithDetails` | newscat.py:112-117 | a table row and the detail panel of the same entry show the same title, link, age and author |
| `Feed.RowIndexReadsBack` | newscat.py:104 | a row's index string is a digit string that reads back as its 1-based position |
| `Feed.RowIndicesDistinct` | newscat.py:103-104 | rows at different positions carry different index strings |
| `Interactive.Strip` | newscat.py:141 | `str.strip()`, which `Prompt.ask` applies to every non-empty answer: it drops the whitespace at both ends (see the three lemmas below) |
| `Interactive.StripEnds` | newscat.py:141 | what `strip()` leaves is no longer than the line and has no whitespace at either end |
| `Interactive.StripBlank` | newscat.py:141 | `strip()` leaves nothing exactly of a string of whitespace |
| `Interactive.StripPadded` | newscat.py:141 | `strip()` of a word with whitespace around it is the word |
| `Interactive.PromptChoice` | newscat.py:141 | the answer `Prompt.ask(..., default="q")` returns: "q" for an empty line, otherwise the line stripped, no longer than it and without whitespace at either end |
| `Interactive.PromptChoiceBlank` | newscat.py:141 | a word typed with whitespace around it is answered as the word, and a non-empty line of whitespace gives the empty answer |
| `Interactive.Lower` | newscat.py:143 | `lower()` keeps the length and lower-cases each ASCII letter |
| `Interactive.LowerIsLetter` | newscat.py:143 | a choice lower-cases to a single letter exactly when it is that letter or its upper-case form |
| `Interactive.ParseCommand` | newscat.py:143-161 | quit exactly for "q"/"Q", refresh exactly for "r"/"R", a story number exactly for a digit string (with its value), unknown otherwise |
| `Interactive.Step` | newscat.py:143-161 | farewell exactly on quit; refresh on "r"/"R", replacing the list exactly when the fetch returned entries; story n shown (entry n-1) exactly when 1 <= n <= len(entries), else "Invalid story number!"; "Invalid command!" for everything else; the list changes only through a successful refresh |
| `Interactive.TakeTurn` | newscat.py:141-161 | one turn answers `Prompt.ask`'s result: an empty line takes the default "q" and quits; any other line is stripped and quits exactly when that is "q"/"Q", and is otherwise handled by `Step` on the stripped line; the list changes only through a refresh whose fetch returned entries |
| `Interactive.Run` | newscat.py:135-161 | a run processes every turn while running and stops after at least one turn when it stops |
| `Interactive.InteractiveMode` | newscat.py:134-161 | the loop's final list, outcomes and running flag are those of `Run` on the same turns |
| `Interactive.RunStopsAtFirstQuit` | newscat.py:141-145 | the loop stops exactly when some answer is a quit: a line that strips to "q" or "Q", or an empty line that takes the default "q" |
| `Interactive.RunQuitIsLast` | newscat.py:141-145 | a processed turn is a quit (counting an empty line as "q" and stripping the others) exactly when it is the last one processed and the loop has stopped |
| `Interactive.RunFollowsCommands` | newscat.py:141-161 | the kind of every processed turn's outcome matches its line: farewell exactly for a quit, a refresh exactly for "r"/"R" (replacing the list exactly when that turn's fetch returned entries), a story or "Invalid story number!" exactly for a digit string, "Invalid command!" otherwise |
| `Interactive.RunOutcomeOfTurn` | newscat.py:135-161 | the outcome of turn j is that turn's line answered against the list held just before it, the one the earlier outcomes left; with `Step` this fixes which story a number shows and when it is "Invalid story number!" |
| `Interactive.RunHeld` | newscat.py:146-150 | the list the loop ends with is read off its outcomes: start from the initial list and take the fetched list of each refresh that replaced it |
| `Interactive.HeldKeepsUntilRefresh` | newscat.py:148-150 | outcomes without a replacing refresh leave the initial list in place |
| `Interactive.HeldIsLastFetch` | newscat.py:148-150 | after a replacing refresh and no later one, the list held is that refresh's fetched list |
| `Interactive.RunKeepsUntilRefresh` | newscat.py:146-150 | when no refresh fetched entries, the loop ends holding the list it started with |
| `Interactive.RunHoldsLastFetch` | newscat.py:146-150 | after a refresh that fetched entries and no later one, the held list is exactly that fetch's list |
| `Interactive.RunKeepsEntries` | newscat.py:148-150 | a non-empty held list never becomes empty: a failed refresh keeps the old list |
| `Interactive.CommandExamples` | newscat.py:141-161 | with three entries: "q" quits, "5" and "0" are invalid story numbers, "3" shows entry 2, "xyz" is an invalid command, and "R" with a failed fetch keeps the list |
| `Interactive.PromptExamples` | newscat.py:141 | `Prompt.ask` answers "q" for an empty line and for " q ", "3" for "3 ", and the empty answer for "   " |
| `Interactive.TurnExamples` | newscat.py:141-161 | with three entries: an empty line and " q " quit, "3 " shows entry 2, and "   " is an invalid command |
| `App.Launch` | newscat.py:163-180 | a failed first fetch ends the program; otherwise the table shows `min(len, 30)` (1..30) rows, row i built from fetched entry i-1, that count is announced, and the loop runs on the fetched list, which stays non-empty |

## Left out

- `fetch_feed` (newscat.py:30-43) needs the network and the `feedparser` library. Only its result is modelled: a list supplied per turn, where empty means failure. Its error messages are not modelled.
- Rendering with `rich` (newscat.py:45-58, 81-93, 110, 119-132): the header panel, table styles, and the Markdown detail panel are terminal output. The hyperlink markup `[link=...]title[/link]` (newscat.py:101) is also output. A row keeps the title and the link as separate fields.
- The runtime `pip install` of missing dependencies (newscat.py:14-24) is an I/O side effect.
- The clock and time zones (newscat.py:62-63) are left out. `datetime.now()` and building a `datetime` from a `struct_time` become an instant in seconds plus a `now` parameter. Microseconds are dropped. The source reads the clock once per row; the model reads it once per table.
- The truthiness of `published_parsed` is modelled only as present or absent. An empty `struct_time` is not modelled.
- `console.clear`, `console.bell`, the command menu (newscat.py:136-139) and reading standard input in `Prompt.ask` (newscat.py:141) are I/O. Answers are supplied as turns. Of `Prompt.ask`'s own handling of the answer, the default "q" for an empty line and the stripping of whitespace from any other line are modelled (`PromptChoice`, applied by `TakeTurn`). rich's prompt module, where that handling lives, is not part of this model's source files; its behaviour is stated from rich's `PromptBase`, which returns the default only for an empty line and strips every other answer.
- The interrupt and exception handlers of `main` (newscat.py:182-185) are signal and error handling. If the answers run out before a quit, the session ends still running; end of input is not modelled.
- Interactive.ParseCommand: a digit string is always read as a story number. Python's `int()` refuses decimal strings longer than 4300 digits (the integer string conversion limit, Python 3.11 and later) with a `ValueError`. The limit is a setting of the interpreter, so the model has no such bound.
- Interactive.Step: for a digit string past that limit the source raises `ValueError` out of `interactive_mode`; `main` then prints "An error occurred" and ends. The model answers "Invalid story number!" and the loop goes on.
- Unicode behaviour of `isdigit`, `int`, `lower` and `strip` is not modelled: digits, letters and whitespace are ASCII only. `strip()` also removes non-ASCII whitespace such as U+00A0; `Strip` keeps it. A non-ASCII digit that `isdigit` accepts but `int` rejects would raise an error.
- What the loop draws after a refresh or a story choice is recorded as an outcome (`Refreshed`, `ShowStory`). The drawing itself is the renderers `DisplayFeeds` and `StoryDetails`.
