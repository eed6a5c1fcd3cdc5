# Team timeline and release report, modelled in Dafny

The repository holds two plotting and reporting scripts. Each has a small,
sequential data-shaping core, and that core is what this project models.

**Team timeline** (`team_timeline/team_timeline.py`). The input is a set of
dated checkpoints, each mapping roles (EELS, EEST, Consensus, Intern,
Grantee) to head counts. The chart is built in these steps:

- Each checkpoint is zero-filled against the union of all roles.
- The checkpoints are spread onto one row per calendar day, from the first
  checkpoint day to the last, by carrying each checkpoint forward. This is
  step semantics, with no interpolation.
- The series is split at `CURRENT_DATE` into an actual segment (days up to
  and including it) and a projected segment (days from it on).
- Each segment is stacked role by role into bands, each band starting where
  the previous one ended.

Above the chart, a strip of milestone events gets random levels that
alternate below and above the axis. Each event is styled as past or future
against `CURRENT_DATE`.

**Release report** (`release_timeline/fetch_release_data.py`):

- Each release record from the GitHub listing API is written as one
  `tag|published_at|name` line, with the name falling back to the tag.
- The lines are saved one per line of a text file.
- The report parses the lines back: short lines are skipped, and a bad date
  aborts the report.
- The releases are sorted stably by publication time.
- A fixed-shape Markdown list is rendered.

## Representation

- Calendar days are integer day numbers (`Calendar.DayNumber`, proleptic
  Gregorian). Consecutive days therefore differ by one, and pandas'
  daily `date_range` becomes an integer range.
- A checkpoint is `Headcount.Row(day, counts)`, where `counts` is a
  `map<string, int>`. The input table is a sequence of rows in input order.
- `CURRENT_DATE` (2025-08-16) is both the cutover day of the headcount
  split and the current day of the milestone styling. `Segments`,
  `Stacking` and `Milestones` take it as a parameter (`cutover`,
  `current`).
- The stacking order is the frame's column order, which is also a
  parameter (`columns`).
- The random generator is a sequence of raw draws, one per event. A draw is
  reduced into `rng.integers`' half-open range. Only the range is claimed.
- Opacity is in hundredths (`alpha = 0.7` becomes `70`), and the frame
  opacity `0.9 * alpha` is exactly nine tenths of it.
- Timestamps are handled only in the fixed UTC form the listing API
  returns, `YYYY-MM-DDTHH:MM:SSZ` (and the same layout already written with
  `+00:00`). The parse is `Option`-valued. On that layout it is `None`
  exactly where Python's `fromisoformat` would raise (a field out of
  range); any other spelling is `None` here even where Python accepts it.
  Parsed datetimes are compared
  through a mixed-radix sort key, and `SortKeyOrder` proves that key order
  is Python's field-by-field datetime order.
- Python's `list.sort` is modelled by an insertion sort. `StableSortIsUnique`
  shows that any sorted arrangement which keeps each key's elements in input
  order equals it, so the result is the one Python's stable sort gives.
- The "Generated on" clock reading is a parameter.
- Every error the core can raise is a `Result`:
  - an empty checkpoint table is `NoCheckpoints`;
  - two checkpoints on one day is `DuplicateDays`;
  - an unparsable date is `BadTimestamp`.

Points where the code's behaviour is easy to misread, modelled as the
code behaves:

- **Checkpoint order.** The code does not reject checkpoints that are out
  of order; `reindex` looks labels up exactly and `ffill` follows the
  daily grid. It fails only on an empty table (no start for the date range)
  or on two checkpoints for one day (pandas refuses to reindex on duplicate
  labels). `Densify` therefore accepts any order and fails exactly in those
  two cases.
- **The `Z` in timestamps.** The code replaces every `Z` in a date field,
  not only a trailing one (`str.replace`). `ReplaceZ` replaces every `Z`.
  Both accepted layouts contain at most one `Z`.
- **Round trip of encoding and parsing.** The parse strips the whole line
  before splitting, so a round trip needs the tag to have no leading
  whitespace and the name to have no trailing whitespace. The extra
  preconditions of `EncodeParseRoundTrip` say so.
- **Forward fill.** The code forward-fills after zero-filling whole rows,
  so filling whole rows equals filling column by column. `Series` fills
  rows.

## Model

| member | source | states |
|---|---|---|
| `Headcount.RolesSpec` | team_timeline/team_timeline.py:80-83 | A role is a column of the table exactly when some checkpoint mentions it. |
| `Headcount.Normalize` | team_timeline/team_timeline.py:80-83 | One row per checkpoint, in input order; `NormalizeRow` and `NormalizeIsComplete` give its contents. |
| `Headcount.ZeroFill` | team_timeline/team_timeline.py:83 | A zero-filled checkpoint has exactly the table's columns, keeps every count it had and reads 0 for every role it did not mention. |
| `Headcount.NormalizeRow` | team_timeline/team_timeline.py:80-83 | After normalisation each checkpoint keeps its day, has a count for every column and nothing else, keeps its own counts, and reads 0 for the roles it lacked (such as Grantee before it appears). |
| `Headcount.NormalizeIsComplete` | team_timeline/team_timeline.py:80-83 | Every normalised checkpoint has exactly the union of roles, and normalising introduces no negative count. |
| `Headcount.NormalizeKeepsColumns` | team_timeline/team_timeline.py:81-83 | Normalising a non-empty table leaves its set of columns unchanged. |
| `Headcount.FirstDayIsLeast` | team_timeline/team_timeline.py:255 | The start of the date range is no later than any checkpoint's day. |
| `Headcount.FirstDayIsAttained` | team_timeline/team_timeline.py:255 | The start of the date range is the day of some checkpoint. |
| `Headcount.LastDayIsGreatest` | team_timeline/team_timeline.py:255 | The end of the date range is no earlier than any checkpoint's day. |
| `Headcount.LastDayIsAttained` | team_timeline/team_timeline.py:255 | The end of the date range is the day of some checkpoint. |
| `Headcount.FindDayIsFirst` | team_timeline/team_timeline.py:257 | The reindex lookup for a day finds the first checkpoint dated that day. |
| `Headcount.Densify` | team_timeline/team_timeline.py:253-257 | The reindex and fill fails with `NoCheckpoints` exactly on an empty table and with `DuplicateDays` exactly when two checkpoints share a day. Otherwise it gives one row per day from the first checkpoint day to the last, in order, and nothing else. |
| `Headcount.Series` | team_timeline/team_timeline.py:257 | The filled series has one row per day from the first checkpoint day to the last, day k dated first day plus k; `ForwardFillCausal` and `CheckpointDayIsExact` give its counts. |
| `Headcount.LatestPresent` | team_timeline/team_timeline.py:257 | The position found holds an entry, and every position after it up to the query holds none. |
| `Headcount.FFill` | team_timeline/team_timeline.py:257 | Forward fill keeps the length; `FFillTakesLatest` states that each position takes the latest present entry at or before it. |
| `Headcount.FFillTakesLatest` | team_timeline/team_timeline.py:257 | Forward fill puts at each position the latest present entry at or before it, or the initial value when there is none. |
| `Headcount.LatestPresentShift` | team_timeline/team_timeline.py:257 | Dropping the first entry shifts the latest present position down by one, except that position 0 falls off. |
| `Headcount.LatestAtOrBefore` | team_timeline/team_timeline.py:253-257 | The reference definition of causality: it returns the first checkpoint among those with the latest day not after `d`, or -1 when every checkpoint is later. |
| `Headcount.ForwardFillCausal` | team_timeline/team_timeline.py:253-257 | Every day of the series holds exactly the counts of the latest checkpoint dated on or before it, so no later checkpoint is ever read. |
| `Headcount.CheckpointDayIsExact` | team_timeline/team_timeline.py:253-257 | On a checkpoint's own day the series holds that checkpoint's counts. |
| `Headcount.FillNaIsNoOp` | team_timeline/team_timeline.py:254-257 | After forward fill no day is missing, because the range starts on a checkpoint day, so the trailing `fillna(0)` changes nothing. |
| `Headcount.CheckpointDayPresent` | team_timeline/team_timeline.py:254-257 | Every checkpoint's day falls inside the date range and has an entry after reindexing. |
| `Headcount.EntryCheckpointIsLatest` | team_timeline/team_timeline.py:257 | The entry forward fill carries to a day comes from the first checkpoint with the latest day not after it. |
| `Headcount.LatestIsReference` | team_timeline/team_timeline.py:257 | Any first checkpoint with the latest day not after `d` is what the reference definition returns. |
| `Headcount.CheckpointIsLatest` | team_timeline/team_timeline.py:257 | With distinct days, the checkpoint dated `d` is the latest one not after `d`. |
| `Headcount.SeriesKeepsColumns` | team_timeline/team_timeline.py:257 | Every day of the series has exactly the table's columns, and no count is negative unless a checkpoint has one. |
| `Headcount.SeriesRowsAreComplete` | team_timeline/team_timeline.py:81-257 | Built from normalised checkpoints, every day has a count for every role in the union and no negative count when the input has none. |
| `Headcount.StepScenario` | team_timeline/team_timeline.py:253-257 | Worked example: from checkpoints on days d0, d0+2 and d0+4, the series has five days; day d0+1 repeats day d0's counts, day d0+3 repeats day d0+2's, and each checkpoint day holds its own. |
| `Calendar.NextDateIsNextDay` | team_timeline/team_timeline.py:254-256 | The calendar's next date has the next day number, so a daily date range is an integer range of day numbers. |
| `Calendar.DaysInMonth` | team_timeline/team_timeline.py:254-256 | A month has 28 to 31 days, and February has 29 exactly in a leap year. |
| `Calendar.LeapDayCount` | team_timeline/team_timeline.py:254-256 | Within a 400-year era each shifted year has 365 days plus one exactly when it contains a leap day. |
| `Segments.ActualMembers` | team_timeline/team_timeline.py:260 | The actual segment holds exactly the rows of the series dated on or before the cutover. |
| `Segments.ProjectedMembers` | team_timeline/team_timeline.py:261 | The projected segment holds exactly the rows of the series dated on or after the cutover. |
| `Segments.Actual` | team_timeline/team_timeline.py:260 | The actual segment is no longer than the series; `ActualMembers` and `ActualIsPrefix` say which rows it holds. |
| `Segments.Projected` | team_timeline/team_timeline.py:261 | The projected segment is no longer than the series; `ProjectedMembers` and `ProjectedIsSuffix` say which rows it holds. |
| `Segments.ActualIsPrefix` | team_timeline/team_timeline.py:260 | On a daily series the actual segment is the prefix ending on the cutover day, or on the last day when the cutover is later. |
| `Segments.ProjectedIsSuffix` | team_timeline/team_timeline.py:261 | On a daily series the projected segment is the suffix starting on the cutover day, or on the first day when the cutover is earlier. |
| `Segments.SplitRebuildsSeries` | team_timeline/team_timeline.py:259-261 | If the cutover lies in the series, both segments hold the cutover day as the same row, and the actual segment followed by the projected segment minus its first row is the series. Otherwise one segment is empty and the two together are the series. |
| `Segments.SegmentsAreDaily` | team_timeline/team_timeline.py:259-261 | Both segments are runs of consecutive days in ascending order. |
| `Segments.DailySlice` | team_timeline/team_timeline.py:259-261 | Any run of consecutive rows of a daily series is daily. |
| `Stacking.BaselineIsPrefixTotal` | team_timeline/team_timeline.py:264-275 | The baseline below the k-th role is the total of the first k columns. |
| `Stacking.BaselineEndsAtTotal` | team_timeline/team_timeline.py:264-275 | After the last role the baseline equals the day's row total. |
| `Stacking.BaselineIsMonotone` | team_timeline/team_timeline.py:264-275 | With no negative counts the baseline starts at zero and never decreases from one role to the next, so bands do not overlap. |
| `Stacking.RoleColorsAreDistinct` | team_timeline/team_timeline.py:241-246 | Every role gets a `#rrggbb` colour, the four named roles get four different colours, and a role gets the grey default exactly when the palette does not name it. |
| `Stacking.RoleColor` | team_timeline/team_timeline.py:272 | Every role gets a `#rrggbb` colour; `RoleColorsAreDistinct` and `GranteeIsGrey` say which. |
| `Stacking.GranteeIsGrey` | team_timeline/team_timeline.py:272 | Grantee, which the palette does not name, is drawn in the default grey `#95a5a6`. |
| `Stacking.Stack` | team_timeline/team_timeline.py:263-275 | The bands are the stack of the segment (`StackedOn`): one band per column in column order, in the role's colour, and on every day role k's band runs from the total of the roles before it to that total plus its own count. The final baseline is each day's total. |
| `Stacking.StackChart` | team_timeline/team_timeline.py:263-289 | Each segment is stacked from zero on its own rows: the actual bands are the stack of the actual segment and the projected bands the stack of the projected segment, day by day. When the cutover lies in a daily series, both segments are non-empty and every band ends in the actual segment exactly where it starts in the projected one. |
| `Stacking.StacksMeet` | team_timeline/team_timeline.py:263-289 | Two stacks whose segments share a row at the seam (last of the first, first of the second) agree there band by band. |
| `Stacking.Baseline` | team_timeline/team_timeline.py:264-275 | What stands below a role on one day; `BaselineIsPrefixTotal` shows it is the total of the columns before it. |
| `Milestones.Draw` | team_timeline/team_timeline.py:91-93 | A draw of `rng.integers(lo, hi)` lies in `lo` up to but excluding `hi`. |
| `Milestones.DrawCoversRange` | team_timeline/team_timeline.py:91-93 | Every value of the half-open range can be drawn. |
| `Milestones.AssignLevels` | team_timeline/team_timeline.py:87-94 | One level per event: from -6 to -3 at even positions and from 2 to 5 at odd ones. |
| `Milestones.LevelsAlternate` | team_timeline/team_timeline.py:89-94 | No level is zero, the first event is below the axis, and neighbouring events sit on opposite sides. |
| `Milestones.LevelsCoverRange` | team_timeline/team_timeline.py:89-94 | Every level in a position's range is reachable, so the ranges are exact. |
| `Milestones.StyleFor` | team_timeline/team_timeline.py:203-210 | An event is styled as past exactly when its day is not after the current day. A future event is fainter, and the frame is nine tenths as opaque as the text. |
| `Milestones.Layout` | team_timeline/team_timeline.py:198-214 | One annotation per event, in event order; `LayoutIsConsistent` states what each holds. |
| `Milestones.LayoutIsConsistent` | team_timeline/team_timeline.py:198-214 | For every annotation, the connector's anchor lies on the same side of the axis as its level, odd positions are above the axis, and the past styling applies exactly up to the current day. |
| `Text.SplitSpec` | release_timeline/fetch_release_data.py:84 | `split("|")` gives one more piece than there are separators, no piece holds one, and joining the pieces gives the string back. |
| `Text.SplitJoin` | release_timeline/fetch_release_data.py:84 | Splitting what was joined gives the pieces back when no piece holds the separator. |
| `Text.Find` | release_timeline/fetch_release_data.py:84 | The first occurrence of a character, or the length when there is none. |
| `Text.CountAppend` | release_timeline/fetch_release_data.py:84 | The separator count of a concatenation is the sum of the two counts. |
| `Text.StripLeft` | release_timeline/fetch_release_data.py:84 | Left strip removes only whitespace and leaves a suffix that does not start with any. |
| `Text.StripRight` | release_timeline/fetch_release_data.py:84 | Right strip removes only whitespace and leaves a prefix that does not end with any. |
| `Text.StripSpec` | release_timeline/fetch_release_data.py:84 | `strip()` keeps a slice of the line that neither starts nor ends with whitespace and removes only whitespace. |
| `Text.StripUnchanged` | release_timeline/fetch_release_data.py:84 | A line with no whitespace at either end is its own strip. |
| `Text.PadDigits` | release_timeline/fetch_release_data.py:103 | A zero-padded field has exactly the requested width and, when the number fits, spells it. |
| `Text.PadDigitsValue` | release_timeline/fetch_release_data.py:103 | Printing a digit run's value at its own width gives the same characters back. |
| `Text.NatToString` | release_timeline/fetch_release_data.py:99 | `str(n)` is a non-empty run of digits without a leading zero that spells `n`. |
| `Timestamps.ReplaceZAppend` | release_timeline/fetch_release_data.py:90 | Replacing `Z` distributes over concatenation. |
| `Timestamps.ReplaceZPrefix` | release_timeline/fetch_release_data.py:90 | A prefix of the replaced text with no `+` in it came through the replacement unchanged. |
| `Timestamps.ReplaceZToOffset` | release_timeline/fetch_release_data.py:90 | Only `Z` and `+00:00` itself turn into `+00:00`. |
| `Timestamps.FromIsoFormat` | release_timeline/fetch_release_data.py:90 | A successful parse is a datetime with every field in Python's range. |
| `Timestamps.ParseTimestamp` | release_timeline/fetch_release_data.py:90 | A successful date parse is a datetime with every field in range; `ParseTimestampSpec` says exactly when it succeeds. |
| `Timestamps.ParseTimestampSpec` | release_timeline/fetch_release_data.py:90 | The date parse succeeds exactly on the two accepted UTC spellings with in-range fields, and then returns the fields as written, with no time-zone shift. |
| `Timestamps.StampParses` | release_timeline/fetch_release_data.py:90 | Every accepted spelling with in-range fields parses to its written fields. |
| `Timestamps.StampReplaced` | release_timeline/fetch_release_data.py:90 | Both accepted spellings become the layout followed by `+00:00` after the replacement. |
| `Timestamps.FormatDateIsStampPrefix` | release_timeline/fetch_release_data.py:103 | The date a bullet prints is the first ten characters of the `published_at` text it was parsed from. |
| `Timestamps.FormatDate` | release_timeline/fetch_release_data.py:103 | `%Y-%m-%d` is ten characters with dashes in the fifth and eighth place, and its digit runs read back as the year, month and day of a valid datetime. |
| `Timestamps.FormatFieldsOf` | release_timeline/fetch_release_data.py:103 | Printing the date fields read from a layout gives its first ten characters back. |
| `Timestamps.SortKeyOrder` | release_timeline/fetch_release_data.py:94 | Comparing sort keys is Python's field-by-field comparison of datetimes, and equal keys mean equal datetimes. |
| `ReleaseCodec.EncodeLine` | release_timeline/fetch_release_data.py:47-50 | When no field holds a pipe, splitting the line on the pipe gives back the tag, the raw timestamp and the display name. |
| `ReleaseCodec.DisplayName` | release_timeline/fetch_release_data.py:49 | A null or empty name gives the tag, a non-empty name is kept, and the name field is empty only when the tag is. |
| `ReleaseCodec.EncodeReleases` | release_timeline/fetch_release_data.py:44-52 | One encoded line per API record, in API order. |
| `ReleaseCodec.NullNameFallsBackToTag` | release_timeline/fetch_release_data.py:49 | A release with a null name is written with its tag in the name field. |
| `ReleaseCodec.EmptyNameFallsBackToTag` | release_timeline/fetch_release_data.py:49 | A release whose name is the empty string is written with its tag in the name field, as `or` treats `""` like null. |
| `ReleaseCodec.SavedTextIsJoin` | release_timeline/fetch_release_data.py:70-72 | The saved text is the lines joined by newlines with one final newline. |
| `ReleaseCodec.SavedText` | release_timeline/fetch_release_data.py:70-72 | The saved text is empty exactly when there are no lines and otherwise ends with a newline; `SavedTextLines` reads it back. |
| `ReleaseCodec.SavedTextLines` | release_timeline/fetch_release_data.py:70-72 | Reading the file back line by line gives the lines written plus the empty remainder, and the file holds one newline per release. |
| `ReleaseCodec.ParseLine` | release_timeline/fetch_release_data.py:84-88 | A line is kept exactly when its stripped text has at least two pipes, and the kept fields hold no pipe; `ParseLineSpec` pins them to the first three pieces. |
| `ReleaseCodec.ParseLineSpec` | release_timeline/fetch_release_data.py:84-88 | A line is kept exactly when its stripped text has at least two pipes. The kept fields hold no pipe and are the first three pieces: they make up the whole stripped line when there are only three, and are followed by a pipe in it when there are more. |
| `ReleaseCodec.JoinFirstThree` | release_timeline/fetch_release_data.py:84-88 | A join of at least three pieces starts with the first three joined, is exactly that with three, and continues with the separator with more. |
| `ReleaseCodec.EncodeParseRoundTrip` | release_timeline/fetch_release_data.py:83-91 | Encoding then parsing returns the tag, the raw timestamp and the display name. This needs no field to hold a pipe, the tag to have no leading whitespace and the name no trailing whitespace. |
| `ReleaseCodec.PipeInNameIsCut` | release_timeline/fetch_release_data.py:84-88 | A name holding a pipe comes back cut at that pipe. |
| `StableSort.Insert` | release_timeline/fetch_release_data.py:94 | Inserting into a sorted list keeps it sorted, adds exactly the element, and puts it last among the elements with its key. |
| `StableSort.Sort` | release_timeline/fetch_release_data.py:94 | The sorted list is ascending by key, a permutation of the input, and keeps each key's elements in input order. |
| `StableSort.StableSortIsUnique` | release_timeline/fetch_release_data.py:94 | Two sorted lists that agree on every key's sub-list are equal, so every stable sort gives the same list. |
| `StableSort.SortMapCommutes` | release_timeline/fetch_release_data.py:94 | A rewrite that keeps keys commutes with the sort: the order depends on the keys alone. |
| `StableSort.WithKeyMembers` | release_timeline/fetch_release_data.py:94 | A key's sub-list holds exactly the elements with that key. |
| `ReleaseReport.Collect` | release_timeline/fetch_release_data.py:82-91 | The parse loop raises exactly when some kept line has a bad date, and it raises on the first one. Otherwise it yields every parsed release in line order. |
| `ReleaseReport.ParseReleases` | release_timeline/fetch_release_data.py:82-91 | The parse loop over the lines; `ParseReleasesSpec` states when it fails and what it yields. |
| `ReleaseReport.ParseReleasesSpec` | release_timeline/fetch_release_data.py:82-91 | Short lines are skipped. The first kept line with an unparsable date aborts with that date's text, and only such a line aborts. Otherwise every kept line becomes one release, in order, with its tag, its name and the datetime its date parses to. |
| `ReleaseReport.CollectSkips` | release_timeline/fetch_release_data.py:85 | A skipped line leaves the loop's result as if it were absent. |
| `ReleaseReport.ShortLineIsSkipped` | release_timeline/fetch_release_data.py:85 | A line with fewer than three fields leaves the report text exactly as if it were absent. |
| `ReleaseReport.GenerateMarkdown` | release_timeline/fetch_release_data.py:81-112 | The report fails, with nothing written, exactly when some kept line has an unparsable date. A short line never makes it fail. |
| `ReleaseReport.ReportLines` | release_timeline/fetch_release_data.py:96-104 | The report has five header lines plus one line per release; `ReportTextLayout` and `TotalCountsBullets` give the lines. |
| `ReleaseReport.ReportLayout` | release_timeline/fetch_release_data.py:96-112 | Split on newlines, the report is the title, a blank line, the generation time, the total, a blank line and one bullet per release in sorted order. With at least one release there is no trailing newline. |
| `ReleaseReport.ReportTextLayout` | release_timeline/fetch_release_data.py:96-112 | The same layout for any list of releases whose tags hold no newline. |
| `ReleaseReport.TotalCountsBullets` | release_timeline/fetch_release_data.py:99-104 | The number on the "Total releases" line reads back as the number of bullet lines, and every line after the header is a bullet. |
| `ReleaseReport.ReportIsChronological` | release_timeline/fetch_release_data.py:93-94 | The sorted releases are in chronological order, a permutation of the parsed ones, and releases published at the same moment keep their line order. |
| `ReleaseReport.ReleaseFromKeptLine` | release_timeline/fetch_release_data.py:90-104 | Every sorted release comes from a kept line: same tag, a valid datetime its date text parses to, and a printed date equal to that text's first ten characters. |
| `ReleaseReport.NameNeverShows` | release_timeline/fetch_release_data.py:102-104 | Two inputs that agree on which lines are kept and on their tags and dates give the same report, whatever the names. |
| `ReleaseReport.CollectIgnoresNames` | release_timeline/fetch_release_data.py:82-91 | Outcomes that differ only in names give the same error, or releases that differ only in names. |
| `ReleaseReport.SortedBulletsIgnoreNames` | release_timeline/fetch_release_data.py:102-104 | Release lists that differ only in names give the same sorted bullets. |

## Left out

- The `gh api` subprocess, `json.loads`, the error messages and `sys.exit`
  (release_timeline/fetch_release_data.py:35-43 and 54-60). These are
  external processes and process exit. The model starts from the decoded
  records.
- A JSON `null` in `tag_name` or `published_at` (a draft release has no
  publication time). An f-string would print it as `None`. The model takes
  both fields as text, so such a record is any line whose date text does not
  parse.
- All file-system work: `mkdir`, `open`/`write` and `savefig`. The model
  gives the text that would be written.
- `datetime.now()` for the "Generated on" line. It is non-deterministic and
  becomes a parameter.
- All matplotlib rendering: axes, ticks, fonts, hatching, the legend,
  `fill_between` drawing, the month-year label and event text, and the float
  y-limit `max total * 1.25` at team_timeline/team_timeline.py:302. These are
  drawing and floating point. Opacities are modelled in hundredths.
- NumPy's generator internals and the seed 42. Only the range of each draw
  is modelled, with a remainder as the stand-in reduction.
- Full ISO 8601 parsing by `fromisoformat`, and pandas' conversion of date
  strings to timestamps. Only the fixed UTC layout is parsed, and days are
  day numbers.
- `strftime`'s `%Y` for years below 1000, which some C libraries print
  without zero padding. `FormatDate` pads to four digits, and the listing
  API's years are four digits.
- The order of pandas' columns for a dict of dicts. The stacking order is a
  parameter.
- The hard-coded checkpoint and event tables. The general lemmas cover them;
  for example, `NormalizeRow` gives Grantee 0 on every checkpoint that does
  not name it.
- `plot_horizontal_fivethirtyeight` and the commented-out vertical plot,
  which are unused.
- The unused `actual_mask` and `projected_mask`
  (team_timeline/team_timeline.py:250-251).
- Console `print`s.
- Timestamps.ParseTimestamp: only the two UTC spellings of the listing
  API parse. The model reports `BadTimestamp` wherever Python's
  `fromisoformat` accepts any other spelling, whether or not Python then
  writes the report. Python writes it for aware spellings (a space
  separator, fractional seconds, another offset), which sort against the
  `Z` lines. It writes it for offset-free spellings (a bare date, no
  offset) only when every stamp is offset-free or there is a single
  release; otherwise `releases.sort` (line 94) raises `TypeError`
  comparing a naive with an aware datetime. The listing API emits only the
  `Z` spelling.
- Pandas' `reindex` leaves missing entries as NaN and so turns the frame
  into float64 columns, on which `ffill` and `fillna` work. The model counts
  with integers, which agrees exactly for every count below 2^53.
- Milestones.Draw: only the range of `rng.integers` is claimed. The
  particular value a seed gives is not modelled.
