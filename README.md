# Broadway grosses ETL — a verified model of its core

The program scrapes the weekly Broadway grosses report, cleans each week's
table, tags every row with its season and week number, and loads the rows
into a BigQuery table. It first deletes any rows of the same (season,
week_num) pairs so that a week is never stored twice. This project models
the logic of that pipeline in Dafny and proves what it promises:

- `BwayDates` (`src/bway_dates.py`) holds the week calendar that
  `generate_week_data` builds from the hard-coded season table. It also
  holds the choice of the most recent completed week, and the slice of
  weeks between two (season, week number) endpoints. Dates are day
  ordinals counted from 1970-01-01. The current time is a parameter.
- `Transform` (`src/transform.py`) holds `clean_data_in_df` and
  `merge_df_with_week_metadata` over a frame of labels and rows of cells.
  A column drop, a positional rename, a header rename and three `applymap`
  conversions run on a mutable `FrameBuffer`. The currency converter gives
  exact `Decimal`s or `NaN`, the count converter gives ints or `None`, and
  the percentage converter gives fractions or `None`. The left join with the
  calendar comes next, then the projection onto the table's 17 columns.
- `Cli` (`main.py`) holds the two argument formats, the order in which
  `main` reads and checks the four arguments with its exit messages, and
  the loop that concatenates the weekly frames.
- `Load` (`src/load.py`) holds `drop_duplicates` of the (season, week_num)
  pairs, the purge condition and query text, and the order of requests:
  purge first, append second.
- `Common` holds strings of digits, `str()` of integers, `str.replace(c, '')`
  and `str.find`. It also holds the `Result` type that stands for Python's
  exceptions.

Exceptions are values: `Err(IndexError)`, `Err(KeyError(name))`,
`Err(ValueError)`, `Err(InvalidOperation)` (the `decimal` exception) and
`Err(Exit(message))` for `print(message); sys.exit(1)`.

## Model

| member | source | states |
|---|---|---|
| BwayDates.GenerateWeekData | src/bway_dates.py:8-43 | the nested loop (end date stepped by 7 days, start date 6 days before it, the 2020-21 row skipped) yields exactly the calendar of the season table |
| BwayDates.SeasonsInTableOrder | src/bway_dates.py:25-39 | the records of table row j sit after those of every earlier row and before those of every later row |
| BwayDates.CalendarAppend | src/bway_dates.py:25-39 | the calendar of two concatenated tables is the concatenation of their calendars |
| BwayDates.SeasonWeeksContiguous | src/bway_dates.py:28-39 | an included row gives numWeeks - offset records, numbered offset + 1 to numWeeks, each a six-day span ending 7 days after the previous one |
| BwayDates.CalendarOrigin | src/bway_dates.py:29-37 | every record is week offset + 1 + m of an included table row, with m below that row's length |
| BwayDates.CalendarRecord | src/bway_dates.py:29-37 | every record starts 6 days before it ends, never belongs to 2020-21, and is week i of its season with offset < i <= numWeeks, ending 7*(i-1) days after the anchor date |
| BwayDates.ChronologicalCalendarIncreasing | src/bway_dates.py:12-39 | when each included season ends before the next one begins, end dates strictly increase over the calendar |
| BwayDates.KeysUnique | src/bway_dates.py:12-39 | with the season table in chronological order and its labels distinct, (season, week_num) identifies one record |
| BwayDates.SeasonTableOrdered | src/bway_dates.py:12-20 | the hard-coded table is chronological and its labels are distinct |
| BwayDates.CalendarKeys | src/bway_dates.py:8-43 | over the hard-coded calendar end dates strictly increase and (season, week_num) is a key |
| BwayDates.CalendarDates | src/bway_dates.py:13-20 | 2022-23 week 1 runs 2022-05-23 to 2022-05-29, week 2 ends 2022-06-05, and 2021-22 week 11 ends 70 days after 2021-05-30 |
| BwayDates.WeekInCalendar | src/bway_dates.py:34-37 | week i of an included row, offset < i <= numWeeks, is in the calendar |
| BwayDates.LatestCompletedWeek | src/bway_dates.py:46-54 | none exactly when no week ended at least a day before now; otherwise a completed calendar week with the latest end date of all completed weeks |
| BwayDates.LatestCompletedWeekUnique | src/bway_dates.py:50-54 | on strictly increasing end dates, the completed week with the latest end date is the one returned |
| BwayDates.MostRecentWeekExample | src/bway_dates.py:46-54 | on 2022-06-06 the most recent week is 2022-23 week 2 |
| BwayDates.FirstIndexOf | src/bway_dates.py:60-61 | `.index[0]` of the key filter: IndexError exactly when no record has the key, otherwise the first record that has it |
| BwayDates.GetHistoricalWeeksFromRange | src/bway_dates.py:57-63 | IndexError exactly when either endpoint is absent; otherwise a contiguous slice of the calendar from the start key's record to the end key's, empty exactly when the first end record comes before the first start record |
| BwayDates.RangeIsSlice | src/bway_dates.py:60-62 | unfolds the definition: the result is the slice from the first record with the start key to the first record with the end key, both included, or empty when the start comes after the end. The content, on the generated calendar, is RangeBetween |
| BwayDates.RangeBetween | src/bway_dates.py:57-63 | on the generated calendar, asking for records s to e returns exactly those records, or nothing when s comes after e |
| BwayDates.FirstIndexAt | src/bway_dates.py:60-61 | with unique keys, looking up a record's key finds that record's position |
| BwayDates.WholeSeasonRange | src/bway_dates.py:57-63 | asking for a season from week offset + 1 to its last week returns exactly that season's records |
| BwayDates.ExcludedSeasonRaises | src/bway_dates.py:32 | any range starting in 2020-21 raises IndexError |
| BwayDates.WeekBeforeOffsetAbsent | src/bway_dates.py:34 | no record of a season has a week number at or below its offset |
| BwayDates.WeekBeforeOffsetRaises | src/bway_dates.py:60 | a range starting at or below a season's offset raises IndexError |
| BwayDates.MissingWeekExample | src/bway_dates.py:17 | 2021-22 week 1 to week 52 raises IndexError, since that season starts at week 11 |
| BwayDates.WholeSeasonExample | src/bway_dates.py:18 | 2022-23 week 1 to week 52 gives 52 weeks |
| Common.NatToDigits | src/load.py:58 | str() of a natural number: digits only, no leading zero |
| Common.IntToString | src/load.py:58 | str() of an integer: a leading '-' exactly for negatives |
| Common.DigitsRoundTrip | src/transform.py:170 | reading back the digits str() writes gives the number |
| Common.DigitsValueAppend | src/transform.py:170 | appending digits t scales the value of s by 10 to the power len(t) |
| Common.RemoveCharSpec | src/transform.py:158 | `replace(c, '')` leaves no c and removes exactly the c's |
| Common.RemoveCharAbsent | src/transform.py:168-169 | replacing a character that is absent changes nothing |
| Common.RemoveCharIdempotent | src/transform.py:158 | removing a character twice is removing it once |
| Common.RemoveCharAppend | src/transform.py:158 | removal distributes over concatenation |
| Common.FindChar | src/transform.py:158 | the first position of c, none exactly when c is absent |
| Transform.ParseDecimal | src/transform.py:158 | Decimal()/float() accept only non-empty numerals |
| Transform.ParseInt | src/transform.py:170 | int() accepts only non-empty numerals |
| Transform.ParseDigits | src/transform.py:158 | a non-empty digit string reads as the number it denotes, for Decimal() and int() |
| Transform.ParseNatToDigits | src/transform.py:170 | Decimal() and int() read back str() of a natural number |
| Transform.ParseIntToString | src/transform.py:170 | int() reads back str() of any integer |
| Transform.ParsePointed | src/transform.py:158 | digits, a point and digits read as whole + frac / 10^len(frac) |
| Transform.WithThousandsDigits | src/transform.py:168-169 | removing the thousands commas leaves the digits of the number |
| Transform.RemoveSeparator | src/transform.py:168-169 | removing ',' from high + "," + low is removing it from high, then low |
| Transform.StripDollarAndComma | src/transform.py:158 | the two replaces turn "$" high "," low into high + low |
| Transform.ConvertCurrencyToDecimal | src/transform.py:154-159 | a string holding '$' converts to Money or raises InvalidOperation; anything else is Decimal('NaN') |
| Transform.ConvertStrNumbersToNumbers | src/transform.py:165-171 | a string converts to an int or raises ValueError; anything else is None, and None comes from nothing else |
| Transform.ConvertPctToFloat | src/transform.py:177-180 | a string holding '%' converts to a fraction or raises ValueError; anything else is None |
| Transform.CurrencyRoundTrip | src/transform.py:154-159 | "$" + n with thousands commas converts to exactly n |
| Transform.NumberRoundTrip | src/transform.py:165-171 | n with thousands commas converts to exactly n |
| Transform.PercentRoundTrip | src/transform.py:177-180 | str(n) + "%" converts to n / 100 |
| Transform.CurrencyCentsRoundTrip | src/transform.py:154-159 | "$" + n with thousands commas + "." + cents, with or without a leading "-", converts to exactly the signed n + cents / 10^|cents| |
| Transform.CurrencyCentsFor | src/transform.py:154-159 | the same for any amount whose comma-free digits denote n |
| Transform.NegativeCurrencyRoundTrip | src/transform.py:154-159 | "-$" + n with thousands commas converts to exactly -n |
| Transform.NegativeAmountFor | src/transform.py:154-159 | the same for any amount whose comma-free digits denote n |
| Transform.PercentPointRoundTrip | src/transform.py:177-180 | str(n) + "." + frac + "%", with or without a leading "-", converts to the signed n + frac / 10^|frac|, divided by 100 |
| Transform.PercentPointFor | src/transform.py:177-180 | the same for any digit string denoting n |
| Transform.SignedCurrency | src/transform.py:156-158 | sign "$" amount tail converts to the signed Decimal of the amount's digits followed by tail |
| Transform.SignedPercent | src/transform.py:178-179 | sign body "%" converts to the signed float of body, divided by 100 |
| Transform.MissingIsNeverZero | src/transform.py:156-159 | missing or unmarked cells become NaN or None, never zero |
| Transform.NumberFromDigits | src/transform.py:165-171 | a string whose comma-free form is digits converts to their value |
| Transform.NumberExample | src/transform.py:165-171 | "1,234" converts to 1234 |
| Transform.CurrencyExample | src/transform.py:154-159 | "$1,234.50" converts to Decimal 1234.5 |
| Transform.DecimalExample | src/transform.py:158 | Decimal("1234.50") is 1234.5 |
| Transform.PercentExample | src/transform.py:177-180 | "87.5%" converts to 0.875 |
| Transform.KeptColumns | src/transform.py:132 | the increasing positions of exactly the columns that hold a value |
| Transform.SelectColumns | src/transform.py:132 | a column selection keeps the row count and the shape |
| Transform.DropEmptyColumnsSpec | src/transform.py:132 | dropna(axis=1, how='all') keeps exactly the columns holding a value, in order, with every row |
| Transform.RenameLabels | src/transform.py:138-151 | mapped labels are renamed, all others kept, positions unchanged |
| Transform.ConvertErrors | src/transform.py:154-180 | the currency converter raises only InvalidOperation, the others only ValueError |
| Transform.FirstMissing | src/transform.py:162 | the label df[names] raises KeyError for: none exactly when all names are columns |
| Transform.ConvertRow | src/transform.py:162 | one row after applymap: named cells converted, others kept; fails exactly when a named cell fails, with the converter's exception |
| Transform.ConvertRows | src/transform.py:162 | every row converted with the row count kept, or the converter's exception |
| Transform.ConvertRowsCells | src/transform.py:162 | cell by cell, the rows succeed exactly when every named cell converts, and hold the converted or original cells |
| Transform.ApplyMap | src/transform.py:161-162 | KeyError exactly when a name is not a column; otherwise each named cell is its conversion and the rest are unchanged, or the converter's exception when some named cell fails |
| Transform.FrameBuffer.constructor | src/transform.py:129 | the copy holds the given frame |
| Transform.FrameBuffer.DropNa | src/transform.py:132 | the buffer becomes the frame with its all-missing columns dropped |
| Transform.FrameBuffer.SetColumnName | src/transform.py:135 | label j is replaced, or IndexError past the end with the buffer unchanged; rows are never touched |
| Transform.FrameBuffer.Rename | src/transform.py:138-151 | the labels are renamed by the header map and the rows kept |
| Transform.FrameBuffer.ApplyMapInPlace | src/transform.py:162 | the buffer takes the converted frame, or is left as it was when the conversion raises |
| Transform.CleanDataInDf | src/transform.py:117-185 | the statements on a fresh copy, in order, stopping at the first exception, compute the clean specification |
| Transform.ConvertedGroupsDisjoint | src/transform.py:161-182 | the three converted column groups do not overlap, and venue_name is not renamed |
| Transform.ConvertAllCell | src/transform.py:161-183 | with disjoint groups, a cell goes through its own group's converter or stays unchanged |
| Transform.ConvertAllTyped | src/transform.py:161-183 | every cell after the three conversions, with the type its converter produces |
| Transform.ConvertAllErrors | src/transform.py:161-183 | the three conversions fail only with KeyError, InvalidOperation or ValueError, never IndexError |
| Transform.CleanIndexError | src/transform.py:132-135 | the cleaning raises IndexError exactly when fewer than two columns hold a value |
| Transform.CleanShape | src/transform.py:129-185 | a clean frame keeps every row; its labels are the kept labels with position 1 named venue_name and then renamed; all converted columns are present |
| Transform.CleanTyped | src/transform.py:153-185 | in a clean frame grosses are Decimals, counts ints or None, and percentages fractions or None, each the conversion of the report's cell; every other cell is unchanged |
| Transform.PositionsOf | src/transform.py:204-222 | the increasing positions of exactly the columns carrying a label |
| Transform.PositionsOfSingle | src/transform.py:204-222 | a label at one position is found there alone |
| Transform.PositionsOfAbsent | src/transform.py:204-222 | a label no column carries has no positions |
| Transform.PositionsOfAll | src/transform.py:204-222 | the indexer's positions are all columns of the frame |
| Transform.PositionsOfAllSingles | src/transform.py:204-222 | with one column per name, one position per name, in order |
| Transform.Project | src/transform.py:204-222 | df[names] raises KeyError for a name that is not a column, and otherwise keeps every row |
| Transform.ProjectSingles | src/transform.py:204-222 | projecting on singly-labelled names gives those columns in the order of names |
| Transform.MatchingWeeks | src/transform.py:201 | exactly the calendar weeks ending on the key date, none exactly when no week does |
| Transform.MatchingAtMostOne | src/transform.py:201 | on strictly increasing end dates at most one week matches |
| Transform.JoinRow | src/transform.py:201 | a left row gives at least one joined row, each extending it by 3 cells |
| Transform.JoinRows | src/transform.py:201 | the left join loses no row |
| Transform.JoinRowSingle | src/transform.py:201 | with unique end dates a left row gives exactly one joined row: itself followed by its week's cells or by missing cells |
| Transform.JoinRowsWidth | src/transform.py:201 | every joined row has 3 more cells than its left row |
| Transform.JoinRowsUniqueEnds | src/transform.py:201 | with unique end dates, joined row i is left row i followed by its week's cells or by missing cells |
| Transform.WeekCellsForUnique | src/transform.py:201 | the cells come from the week ending on the key date, and are missing when no week does |
| Transform.MergedColumns | src/transform.py:201 | the joined labels are the left ones followed by the calendar's three |
| Transform.MergedColumnsNoClash | src/transform.py:201 | without a clashing label no suffix is added |
| Transform.Merge | src/transform.py:201 | a successful join is well shaped and loses no row |
| Transform.MergeDfWithWeekMetadata | src/transform.py:188-224 | the definition of merge_df_with_week_metadata: the left merge on week_end_date, then the final columns; KeyError when the frame has no week_end_date, ValueError when it has several, and a success is well shaped and loses no row. What the result holds is stated by MergeFinal, MergeFinalCell and MergeFinalWeeks |
| Transform.MergeNoClash | src/transform.py:201 | with one key column, no clash and unique end dates, the join keeps the row count and appends each row's week cells |
| Transform.ReportColumnsJoinable | src/transform.py:201-222 | a report frame supplies every final column the join needs |
| Transform.JoinedPositions | src/transform.py:201-222 | every name labels exactly one joined column, where the frame or the calendar had it |
| Transform.ProjectJoinedReport | src/transform.py:201-222 | join then projection: the names become the labels, every row is kept, and report columns take the frame's cells |
| Transform.ProjectJoinedCell | src/transform.py:201-222 | the projected cell of a report column is that row's cell in the frame |
| Transform.ProjectJoinedWeeks | src/transform.py:201-222 | a projected calendar column holds the matching week's cell |
| Transform.FinalWeekSlots | src/transform.py:204-222 | there are 17 final columns, and columns 2 to 4 are season, week_num and week_start_date |
| Transform.FinalWeekCells | src/transform.py:201-222 | columns 2 to 4 of a final row are the matching week's cells |
| Transform.MergeFinal | src/transform.py:188-224 | the result has the 17 columns in order and one row per report row |
| Transform.MergeFinalCell | src/transform.py:188-224 | each report column of a final row is carried over unchanged from the report frame |
| Transform.MergedThenProjected | src/transform.py:201-224 | unfolds the definition: when the join succeeds, the result is the joined frame cut down to the final columns in their order. The content is stated by MergeFinal, MergeFinalCell and MergeFinalWeeks |
| Transform.MergeFinalWeeks | src/transform.py:188-224 | a row takes season, week_num and start date from the week ending on its week_end_date, and missing values when none does |
| Cli.CheckSeasonFormat | main.py:51-54 | the definition of check_season_format; an accepted string has 7 or 8 characters, four digits and then '-'. SeasonFormatSound and SeasonFormatComplete state exactly what it accepts |
| Cli.CheckWeekNumFormat | main.py:56-60 | the definition of check_week_num_format; an accepted string has 1 to 3 characters and starts with a digit 1-9. WeekNumFormatSound and WeekNumFormatComplete state exactly what it accepts |
| Cli.Anchored | main.py:52-59 | `$` matches at the end or before one final newline |
| Cli.SeasonFormatComplete | main.py:51-54 | four digits, '-', two digits, with an optional final newline, are accepted |
| Cli.SeasonFormatSound | main.py:51-54 | an accepted season is four digits, '-', two digits, and at most one final newline |
| Cli.CalendarSeasonsAccepted | main.py:51-54 | every season label of the table passes the check |
| Cli.WeekNumFormatSound | main.py:57-60 | an accepted week is a number from 1 to 53 with no sign and no leading zero |
| Cli.WeekNumFormatComplete | main.py:57-60 | every number from 1 to 53 is accepted, with or without a final newline |
| Cli.WeekNumExamples | main.py:58 | "0", "01", "54" and "+5" are rejected; "53" and "7\n" are accepted |
| Cli.SelectWeeks | main.py:43-87 | the early-exit statements compute the weeks to run |
| Cli.NoArgumentsRunsLatestWeek | main.py:43-45 | with no argument, at most one week runs: the latest completed one, none exactly when none is completed |
| Cli.FirstMalformedArgumentReported | main.py:63-82 | when the earlier arguments pass, the first malformed argument exits with its own message, whatever follows |
| Cli.FirstRejectionFrom | main.py:63-82 | the checks of present, passing arguments are passed over in order |
| Cli.MissingArgumentReported | main.py:85-87 | fewer than four arguments, all passing, exit with "Missing argument" |
| Cli.ExtraArgumentsIgnored | main.py:63-84 | arguments after the fourth are never read |
| Cli.FirstRejectionPrefix | main.py:63-82 | the checks read only the first five entries of argv |
| Cli.WellFormedArgumentsRunRange | main.py:84-87 | four well-formed arguments run the calendar range, and an absent endpoint exits with "Missing argument" |
| Cli.OnlyExits | main.py:63-87 | every failure of the argument handling is an exit with a message |
| Cli.FirstRejectionExits | main.py:63-82 | every rejection is an exit with a message |
| Cli.AccumulateWeeks | main.py:91-109 | the loop builds the concatenation of the weekly frames in week order, and stops with the exception of the first week that raises |
| Cli.ConcatAllOutcome | main.py:94-109 | the frame to load is built exactly when no week's fetch and transform raises |
| Cli.ConcatAllFirstError | main.py:94-109 | the first week that raises decides main's exception; later weeks are never fetched |
| Cli.ConcatAllRows | main.py:91-109 | when every week succeeds with the same non-empty labels, the frame to load has those labels and every week's rows in order; with no week it is the empty frame |
| Cli.Concat | main.py:109 | the definition of one pd.concat with ignore_index: the rows are the accumulated rows followed by the week's, and the labels stay those of the accumulated frame once it has any. RowsInOrderAppend and ConcatAllRows state the result over all weeks |
| Cli.RowsInOrderAppend | main.py:109 | one more week adds its rows at the end |
| Cli.RowsOfWeek | main.py:94-109 | a week's rows sit right after those of the weeks before it |
| Cli.RowsInOrderConcat | main.py:94-109 | the rows of two week lists are the rows of each, in order |
| Cli.PrepareLoad | main.py:43-109 | a rejected command line exits before any week; otherwise the frame to load is the weeks' frames concatenated, or the exception of the first week that raises, so nothing reaches the load |
| Cli.NoWeeksNothingLoaded | main.py:91-112 | with no week to run, loading the empty frame raises KeyError('season') before any request |
| Load.Keys | src/load.py:50 | one (season, week_num) pair per row |
| Load.DropDuplicates | src/load.py:50 | the kept rows carry labels of input rows |
| Load.DropDuplicatesKept | src/load.py:50 | each kept row holds its row's pair, that row is the pair's first occurrence, and labels increase |
| Load.DropDuplicatesFirsts | src/load.py:50 | the first row of each pair is kept |
| Load.DropDuplicatesDistinct | src/load.py:50 | no pair is kept twice |
| Load.DropDuplicatesComplete | src/load.py:50 | every pair of the input is kept |
| Load.FirstOccurrence | src/load.py:50 | each row's pair has a first occurrence at or before it |
| Load.DropDuplicatesFirstLabel | src/load.py:50-56 | the first kept label is 0 and no later one is, so only the first clause lacks "or " |
| Load.BuildCondition | src/load.py:52-58 | the loop writes, for each kept row, "or " unless its label is 0, then its clause |
| Load.Terms | src/load.py:58 | one clause per kept row, in order |
| Load.ConditionIsOrJoin | src/load.py:52-58 | when label 0 comes first and alone, the condition is the clauses joined by "or " |
| Load.PurgeFor | src/load.py:47-72 | KeyError exactly when season or week_num is not a column |
| Load.RemoveSeasonWeeksIfExist | src/load.py:47-72 | the statements compute the purge request or the KeyError |
| Load.LoadBwayData | src/load.py:7-33 | the statements compute the request plan |
| Load.PurgeBeforeAppend | src/load.py:23-33 | the purge query goes out before the append of the frame; nothing is sent when the purge raises |
| Load.EmptyFrameRaises | src/load.py:50 | a frame without columns raises KeyError('season') |
| Load.PurgeCondition | src/load.py:50-65 | the purge query deletes one clause per distinct pair, in first-occurrence order, joined by "or " |

## Left out

- `src/extract.py` (the HTTP request) and `html_content_to_df` (HTML parsing) are not part of this model. The same holds for the `transform_data` wrapper that chains them. Each week's fetch and transform enters `main` as a function parameter that gives the week's cleaned frame or the exception it raises.
- The network, BigQuery execution and SQL semantics are left out. A purge or append is a `Request` value, and the query text is built exactly.
- `load_to_gbq`'s `except: exit(1)` and its success message are left out: the BigQuery call is not modelled, so it cannot fail.
- `sleep`, `random.uniform`, `print` and `datetime.now()` are left out. The time is a day-ordinal parameter, and a printed exit message travels in `Exit(message)`.
- The `strftime` of each week's end date is left out, since it only feeds the left-out extraction.
- Decimal, float and int parsing cover an optional sign, digits and (for Decimal and float) at most one point. Surrounding whitespace, underscores between digits ("1_234"), exponents and the "inf" and "nan" spellings, which Python's Decimal(), float() and int() accept, are not modelled: the model rejects them. Floats are exact reals, so rounding is not captured.
- `\d` is modelled as ASCII digits, although Python's matches every Unicode decimal digit.
- `LatestCompletedWeek` does not model the tie order of `sort_values`. It only matters when two weeks share an end date, and the calendar has none (`CalendarKeys`).
- pandas behaviour with repeated column labels is not modelled in full. A `KeyError` names only the first missing label, and `CellUnder` reads the first column carrying a label.
- `Transform.Merge` does not model the `MergeError` pandas raises when a suffixed label already exists. The report's headers carry none of the calendar's labels.
- `Cli.Concat` does not model concat's union of differing column sets. It assumes all weekly frames share the same labels, as the cleaned frames do.
- `Load.CellText` writes a missing week number as "nan". It does not model the float dtype a missing value gives the column, under which pandas prints numbers as "11.0".
- The kept row labels of `drop_duplicates` are positions. This matches the `ignore_index=True` concat that builds the frame.
- The converters' round trips cover the forms the report prints: dollar amounts with thousands commas, with or without cents and a leading "-", and percentages with or without decimals and a leading "-". A leading "+" and a point with no digit before it are parsed by the model but have no round-trip lemma.
