# Fiverr online-status monitor, modelled in Dafny

The repository is two scripts.

`status.py` is the sampler, run on a schedule. It builds an optional proxy
configuration from four environment values. It asks the Fiverr `is_online`
endpoint up to five times; the first answer decides between `ONLINE` and
`OFFLINE`, and `ERROR` stays when no attempt answers. It then rewrites
`status.csv` as a sliding window of at most 96 `[timestamp, status]` rows.

`visualize.py` is the renderer. It reads `status.csv`, keeps the two-column
rows, drops the UTC offset from each timestamp, and groups the observations
by date and hour. It sorts the hours, lays them out one grid row per hour
with at most four coloured, time-labelled boxes per row, and adds a legend.

The model is organised as follows:

- `wrappers.dfy`: the `Option` and `Result` types.
- `sampler.dfy`: the retry loop, the proxy selection, and the failure
  classification behind the finding below.
- `status_log.dfy`: the read-trim-append window on the log, and the whole
  sampler run.
- `clock.dfy`: parsed timestamps, hour keys, their `'%Y-%m-%d %H:00'` text and
  its order, and the `'%H:%M'` label.
- `grouping.dfy`: the row filter, the offset stripping, the read loop, the
  hour buckets and the sorting of the hours.
- `layout.dfy`: the colour table, the grid layout as abstract cells, the
  legend, and the renderer end to end.

Each script loop is a method with loop invariants, proved equal to a pure
specification function. The properties are proved as lemmas about those
functions.

## Model

| member | source | states |
|---|---|---|
| Sampler.Decide | status.py:41-50 | The status is ERROR exactly when every attempt failed; otherwise the first answered attempt decides ONLINE or OFFLINE by its flag |
| Sampler.TakeSample | status.py:40-50 | Between 1 and 5 attempts are made, and every attempt before the last one failed. A non-ERROR status comes from the last attempt's answer (ONLINE iff truthy). ERROR iff all five failed, and then exactly five were made. The result equals Decide on the first five outcomes |
| Sampler.DecideAsWritten | status.py:43-50 | The loop as written: it logs ERROR iff every reply was a caught failure. A reply carrying the flag after only caught failures gives ONLINE or OFFLINE by that flag |
| Sampler.Status.Label | status.py:41 | Each status is written as a non-empty text: ONLINE, OFFLINE or ERROR |
| Sampler.LabelInjective | status.py:41-47 | Distinct statuses are written as distinct texts, so a logged label names exactly one status |
| Sampler.NonObjectBodyEndsScript | status.py:46-49 | As written, a reply whose JSON body is not an object (`[]` after a failed attempt) ends the loop without a status. The corrected reading gives ONLINE from the later answer |
| Sampler.ClassifiedDecide | status.py:43-50 | With every malformed reply counted as a failed attempt, the status is ERROR iff no reply carries the flag. Wherever the as-written loop produces a status, it agrees. The as-written loop stops without a status exactly when a non-object body comes before any answer or other body |
| Sampler.AsWrittenAgrees | status.py:43-50 | Wherever the loop as written settles on a status, counting malformed bodies as failures gives the same status |
| Sampler.AsWrittenCrashes | status.py:45-49 | The loop as written ends the script without a status iff a non-object body arrives before any reply carrying the flag |
| Sampler.SelectProxies | status.py:31-37 | Proxies are configured iff all four values are present and non-empty, and then http and https use the same URL |
| Sampler.ProxyUrl | status.py:33 | The proxy URL is as long as its four fields plus the ten characters of `http://`, `:`, `@` and `:` |
| Sampler.ProxyUrlFields | status.py:33 | The URL is `http://`, then user, `:`, password, `@`, host, `:`, port, each at its own offset |
| Sampler.ProxiesUseCredentials | status.py:32-37 | A configured proxy's http and https entries are both the URL built from the four given values |
| StatusLog.Retained | status.py:70-73 | The rows kept before appending: the last 95 when there are 96 or more, otherwise all of them, always a suffix of the old rows |
| StatusLog.Appended | status.py:70-83 | The new log is non-empty, holds at most 96 rows and ends with the new row. With fewer than 96 old rows, all of them come before it unchanged |
| StatusLog.LastN | status.py:72-73 | The last n rows: min(n, length) of them, a suffix of the input |
| StatusLog.WriteLog | status.py:70-83 | The new log is the retained old rows plus the new row. It holds exactly 96 rows when there were 96 or more, otherwise the old count plus one, never more than 96. The last row is `[timestamp, status]`. The rows before it are a contiguous suffix of the old rows in order, and all of them when there were fewer than 96. A missing file gives exactly one row |
| StatusLog.AppendedIsWindow | status.py:70-83 | Trimming to 95 then appending is the same as keeping the last 96 rows of old rows plus the new row |
| StatusLog.LastNAbsorbs | status.py:72-73 | Trimming before appending more rows does not change the final window of n rows |
| StatusLog.AppendAllIsWindow | status.py:70-83 | Any number of sampler runs leave the last 96 rows of everything ever logged |
| StatusLog.ManyRunsKeepMostRecent | status.py:70-73 | Once more than 96 rows have been logged, the log holds exactly 96 rows: the most recent ones |
| StatusLog.RunSampler | status.py:31-83 | One run of status.py: the proxies are the selected ones, and the status is decided from the first five replies with malformed bodies counted as failures. Wherever the loop as written settles, the status equals its status. The log is the window with `[timestamp, label]` appended last and at most 96 rows |
| Clock.Pad | visualize.py:24 | Zero padding gives exactly `width` decimal digits |
| Clock.PadReadsBack | visualize.py:24 | The padded digits read back as the number |
| Clock.TimeLabel | visualize.py:61 | The `%H:%M` label has five characters: two digits, a colon, two digits |
| Clock.TimeLabelReadsBack | visualize.py:61 | The label's digits read back as the observation's hour and minute |
| Clock.HourKeyText | visualize.py:24 | The `%Y-%m-%d %H:00` hour key is 16 characters long |
| Clock.PadOrder | visualize.py:30 | Text order of equally padded numbers is numeric order |
| Clock.TextBeforeConcat | visualize.py:30 | Comparing texts whose first parts have equal length compares the first parts, then the rest |
| Clock.HourKeyTextOrder | visualize.py:24-30 | Sorting the hour-key texts orders hours chronologically: text order is (year, month, day, hour) order |
| Grouping.HourKeyTextInjective | visualize.py:24-27 | Distinct hours get distinct key texts, so a text-keyed bucket never mixes two hours |
| Clock.TextBeforeIrreflexive | visualize.py:30 | No hour-key text sorts before itself |
| Grouping.StripOffset | visualize.py:15 | The part before the first `+` is a prefix of the timestamp and holds no `+`; when something was cut, the cut starts at a `+` |
| Grouping.StripOffsetDropsOffset | visualize.py:15 | A timestamp followed by `+` and any offset strips back to the timestamp |
| Grouping.Observe | visualize.py:10-16 | A successful read gives one observation per two-column row; a failed one reports a bad timestamp |
| Grouping.KeptRowsMembers | visualize.py:12-13 | A row is kept iff it is in the file and has exactly two columns. Each two-column row is kept exactly as many times as it occurs in the file, and no other row is kept |
| Grouping.KeptRows | visualize.py:12-13 | No more rows are kept than were read, and every kept row has exactly two columns |
| Grouping.KeptRowsCounts | visualize.py:12-13 | Each two-column row occurs among the kept rows as often as in the file; other rows occur zero times |
| Grouping.KeptRowsInOrder | visualize.py:12-16 | The kept rows stay in file order |
| Grouping.ObserveMeaning | visualize.py:10-16 | Reading succeeds iff every two-column row's stripped timestamp parses. It then gives one observation per kept row, in order, with that row's parsed time and status. Otherwise the error names the first timestamp that does not parse |
| Grouping.ObserveErrorPersists | visualize.py:12-16 | Once a row fails to parse, later rows do not change the outcome |
| Grouping.ReadObservations | visualize.py:10-16 | The read loop computes exactly Observe of the rows |
| Grouping.InHour | visualize.py:22-27 | An hour's bucket holds no more observations than were read, and only observations of that hour |
| Grouping.InHourMembers | visualize.py:22-27 | An observation is in an hour's bucket iff it was read and its date and hour are that key |
| Grouping.InHourInOrder | visualize.py:27 | A bucket keeps its observations in file order |
| Grouping.InHourNonEmpty | visualize.py:25-27 | An hour's bucket is non-empty iff some observation falls in that hour |
| Grouping.BucketsMeaning | visualize.py:22-27 | Every observation is in the bucket of its own hour. Every bucket is non-empty, holds only observations of its hour, and keeps file order |
| Grouping.BucketsSnoc | visualize.py:23-27 | Reading one more observation appends it to its hour's bucket, creating the bucket if new, and leaves other buckets alone |
| Grouping.FileObservation | visualize.py:24-27 | One pass of the grouping loop body, creating the bucket when the key is new and appending the observation, gives the buckets of one more observation |
| Grouping.GroupByHour | visualize.py:22-27 | The grouping loop computes exactly the buckets, with every observation in its hour's bucket, buckets non-empty and in file order, and only matching hours in each |
| Grouping.SumSizesSnoc | visualize.py:22-27 | One more observation adds one to the total bucket size exactly when its hour is listed |
| Grouping.BucketSizesAddUp | visualize.py:22-27 | Over distinct hours covering every observation, bucket sizes sum to the number of observations |
| Grouping.BucketsPartition | visualize.py:22-31 | The bucket sizes of the sorted hours add up to the number of kept rows: each observation is in exactly one bucket |
| Grouping.BeforeIsStrictTotalOrder | visualize.py:30 | Hour order is irreflexive, transitive and total |
| Grouping.EarliestExists | visualize.py:30 | Every non-empty set of hours has an earliest one |
| Grouping.SortedKeys | visualize.py:30 | The sorted hours are ascending and are exactly the given hours |
| Grouping.HeadIsEarliest | visualize.py:30 | The first of an ascending list of hours is its earliest |
| Grouping.AscendingUnique | visualize.py:30 | Two ascending lists of the same hours are equal, so the sorted order is unique |
| Grouping.SortedHours | visualize.py:30-31 | Sorting the bucket keys gives them in ascending order, each exactly once, and equals SortedKeys |
| Grouping.LoggedRowReadsBack | status.py:83 | A row the sampler appends is kept by the renderer and read back last, with its status |
| Layout.Drawn | visualize.py:49-51 | At most four observations of a bucket are drawn: all of a smaller bucket, four of a larger one |
| Layout.RowPlacements | visualize.py:49-51 | A row places exactly the drawn number of observations |
| Layout.Placements | visualize.py:44-51 | The grid places at most four observations per hour |
| Layout.Paint | visualize.py:54-62 | A successful drawing has one cell per placement. A failed drawing reports a status that has no colour in the table |
| Layout.PaintMeaning | visualize.py:54-62 | Painting succeeds iff every drawn status has a colour. It then gives one cell per placement, in order, coloured by the table. Otherwise the error names the first status without a colour |
| Layout.PaintErrorPersists | visualize.py:57 | After a KeyError, later placements do not change the outcome |
| Layout.PlacementsPrefix | visualize.py:44 | The rows of earlier hours are drawn before those of later hours |
| Layout.PlacementsNextRow | visualize.py:44-46 | Drawing hour `row_idx` adds its row `num_rows - 1 - row_idx` after the rows already drawn |
| Layout.PaintPrefixErr | visualize.py:57 | When a prefix of the drawing fails, the whole drawing fails the same way |
| Layout.PaintNextColumn | visualize.py:49-61 | Drawing the next column appends its cell |
| Layout.PaintAppend | visualize.py:49-58 | Drawing one more placement after a successful prefix adds its cell when its status has a colour, and otherwise fails with that status |
| Layout.PaintRowStops | visualize.py:57 | A column whose status has no colour ends the drawing of the whole grid with that status |
| Layout.LayOutStops | visualize.py:44-57 | A row that fails to draw ends the whole grid with its error |
| Layout.LayOutStep | visualize.py:44-64 | Drawing hour `row_idx` after the earlier hours gives the drawing of one more hour, and an error there is the grid's error |
| Layout.LayOutRow | visualize.py:49-64 | The inner loop draws at most the first four observations of an hour in columns 0..3 and stops at the first status without a colour, exactly as Paint specifies |
| Layout.LayOut | visualize.py:44-64 | The nested layout loops compute exactly Paint of the placements of the sorted hours |
| Layout.PlacementsCount | visualize.py:49-51 | The grid has one placement per drawn observation: min(4, size) per hour |
| Layout.PlacementAt | visualize.py:44-51 | Observation `c < 4` of hour `j` is placed at row `num_rows - 1 - j`, column `c`, right after the placements of the earlier hours |
| Layout.PlacementOrigin | visualize.py:44-51 | Every placement in row `r`, column `c` shows observation `c` of hour `num_rows - 1 - r`, with `c` below the drawn count |
| Layout.Render | visualize.py:10-64 | The renderer's result is exactly Expected: a missing file aborts, and otherwise read, group, sort and lay out, with any parse or colour error passed on |
| Layout.Expected | visualize.py:10-64 | A render fails only with a missing file, a bad timestamp, or a status that has no colour |
| Layout.ExpectedIsLayout | visualize.py:22-64 | A successful render, with any colour table, is the layout of the sorted hours of the observations read |
| Layout.GridCount | visualize.py:49-58 | A successful layout has one cell per drawn observation |
| Layout.GridCellShows | visualize.py:45-61 | Each cell shows one of the first four observations of the hour its row belongs to, in its status's colour and labelled with its `%H:%M` time |
| Layout.GridRowOccupied | visualize.py:44-58 | Every hour with observations has a cell in column 0 of its row |
| Layout.RenderedRows | visualize.py:30-58 | A successful render has one grid row per distinct hour. Every cell's row is below that count, and every row 0..n-1 is occupied, so the rows are a permutation of 0..n-1 |
| Layout.GridOfObservations | visualize.py:22-58 | When the sorted hours of some observations are drawn, there is one row per distinct hour, every cell is on one of them, and every hour's bucket is non-empty and has a cell in column 0 |
| Layout.SortedHasSize | visualize.py:30-31 | `num_rows` equals the number of distinct hour keys |
| Layout.LegendMatchesColourMap | visualize.py:68-72 | The legend lists each status of the colour table exactly once, with that status's colour |
| Layout.SampledStatusesHaveColours | visualize.py:19 | Every status the sampler writes has a colour, so sampler-written rows never raise KeyError |

## Left out

- The HTTP request, its timeout and JSON decoding are foreign calls. Each
  attempt is an abstract reply. `Sampler.TakeSample` takes one outcome per
  possible attempt (`requires |outcomes| >= 5`), standing for what the
  network would have answered.
- Loading `.env` and reading environment variables are I/O. The four proxy
  values are parameters, with `None` for an unset variable.
- The clock, the time zone, `isoformat` and `fromisoformat` are library code.
  The sampler's timestamp is an opaque string. The renderer's timestamp
  parser is a parameter (`parse`) returning a parsed moment or nothing.
  Seconds, fractions of seconds and time zones are not modelled, because the
  grid only uses date, hour and minute.
- CSV quoting and escaping are library code. The log is a sequence of rows of
  strings.
- Opening, reading and writing files, and the printed messages, are I/O. A
  read failure in the sampler is a missing file (`None`). A write failure,
  which status.py reports and ignores, is not modelled.
- All matplotlib drawing (figure size, axis limits, float box and legend
  positions, fonts, dpi, saving the image) is UI and floating point. The
  model stops at abstract cells `(row, col, colour, text)` and the legend
  table.
- StatusLog.RunSampler: models the corrected run, in which a JSON body that
  is not an object counts as a failed attempt. In the run as written, the
  TypeError from such a body ends the script before the log is written.
  `Sampler.DecideAsWritten`, `Sampler.AsWrittenCrashes` and the finding below
  cover that case; RunSampler's contract states that it agrees with the loop
  as written wherever that loop settles.
- Two sampler runs racing on the log is concurrency that the code does not
  guard against.
- Clock.HourKeyText: pads every year to four digits, whereas `%Y` under the
  C library may not pad years below 1000. Such years do not arise in this log.

The model follows the code in two places where a plain-language reading of
the scripts might differ:

- Row direction: the code puts hour `row_idx` at row `num_rows - 1 - row_idx`,
  with the axis growing upwards. So the earliest hour is in the top row and
  the latest hour is in row 0, at the bottom. The model places rows exactly
  as the code does.
- Offsets: only a `+` starts the dropped suffix (`split("+")`). A negative
  offset such as `-05:00` is left in place for the parser.

An unknown status raises KeyError only for the first four observations of an
hour, because observations beyond the fourth are never looked up. The model
(`Layout.Paint`, `Layout.LayOutRow`) reproduces this.

## Findings

| source | as written | input that shows it | evidently intended | confidence | as-written member | corrected member |
|---|---|---|---|---|---|---|
| status.py:46-49 | `r.json()["is_online"]` on a JSON body that is not an object (a list, a number, a string) raises TypeError. The except clause does not catch it, so the script ends without retrying and without logging anything | replies: a failed attempt, then an attempt whose body is `[]`, then an answer `{"is_online": true}` | count a malformed body as a failed attempt and go on retrying, as for a missing key or invalid JSON; the run then logs ONLINE | medium, not executed | Sampler.NonObjectBodyEndsScript | Sampler.ClassifiedDecide |
