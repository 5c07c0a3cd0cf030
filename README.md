# Toronto transit delay pipeline — a Dafny model

This project models the data-processing core of a small analysis pipeline.
The pipeline takes the Toronto Transit Commission's public delay records for
subway and bus and turns them into cleaned, categorised and summarised tables.
Three stages are modelled, each as pure functions over in-memory tables:

- **Cleaning** (`CleanData`, `clean.dfy`). Every raw sheet gets its column
  labels normalised: strip, lower-case, then blank to underscore. Each table is
  projected onto the columns the later stages use. Bus rows need `min_gap > 0`.
  The filtered subway variant keeps only rows with `min_delay > 0`. The two menus
  of the code sheet (main subway codes and Scarborough RT codes) are cut out and
  concatenated; the RT block first loses its rows without a code. The stage ends
  with its validation asserts. Tables here are untyped frames: a header of labels
  plus rows of cells that are text, numbers or missing.
- **Classification** (`ParseCodes`, `parse_codes.dfy`). A fixed lookup maps
  bus incident texts to four incident categories. A first-match prefix
  classifier maps subway delay codes to the same categories. The subway delay
  rows are inner-joined with the classified code table on `code`. A fixed alias
  table normalises line names, with "Other" as the fallback. The table is sorted
  stably by (date, time), then validated.
- **Summaries** (`SummariseData`, `summarise.dfy`). For each (date, day)
  group: delay totals, counts and means. Per day of the week: the mean number of
  delays, taken over the per-date counts. Counts of rows per incident category
  and per line.

`Tables` (`tables.dfy`) holds the shared pieces: `Option` (a missing cell),
`Result`, the typed rows exchanged by the later stages, and sequence helpers.
The helpers are table columns, a boolean-mask filter, de-duplication in first-appearance order
(the keys of a group-by), subsequences, and sums of occurrence counts.

## Model

| member | source | states |
|---|---|---|
| `Tables.Filter` | scripts/02-clean_data.py:33 | a boolean mask keeps a subsequence of the rows: a row is kept iff it is a row of the input satisfying the mask, each kept row as often as in the input, none longer than the input |
| `Tables.Distinct` | scripts/04-summarise_data.py:52-56 | the group keys: exactly the values that occur, each once |
| `Tables.DistinctOccurrences` | scripts/04-summarise_data.py:52-56 | conservation: the occurrence counts of the group keys add up to the number of rows |
| `Tables.FilterDistinct` | scripts/04-summarise_data.py:59-64 | keeping the keys of one day commutes with taking the distinct keys |
| `Tables.OccurrencesCongruent` | scripts/04-summarise_data.py:59-64 | occurrence sums depend only on how often each key occurs |
| `Tables.ColumnCount` | scripts/04-summarise_data.py:76-89 | a value occurs in a column as often as there are rows whose field has that value |
| `CleanData.NormaliseName` | scripts/02-clean_data.py:19 | the label with surrounding whitespace stripped, then each character lower-cased and a blank turned into `_`, one for one (shape and idempotence: `NormaliseNameShape`, `NormaliseNameIdempotent`) |
| `CleanData.NormaliseNameShape` | scripts/02-clean_data.py:19 | a normalised label is no longer than the raw one, contains no blank and no upper-case letter, and has no whitespace at either end |
| `CleanData.NormaliseNameIdempotent` | scripts/02-clean_data.py:19 | normalising a normalised label changes nothing |
| `CleanData.NormaliseNames` | scripts/02-clean_data.py:45 | renaming normalises every label and leaves every cell as it was |
| `CleanData.IndexOf` | scripts/02-clean_data.py:22-29 | a selected label is found at its first position in the header |
| `CleanData.Select` | scripts/02-clean_data.py:22-29 | selection succeeds iff every listed label occurs exactly once; an absent label fails naming that label, a repeated one fails naming a listed label that occurs more than once; on success the frame has exactly the listed columns in the listed order, every row, and each cell taken from the column of its label |
| `CleanData.SelectRows` | scripts/02-clean_data.py:22-29 | when every listed label occurs exactly once, the selection is exactly the projected rows under the listed labels |
| `CleanData.FilterPositive` | scripts/02-clean_data.py:33 | `col > 0` fails iff the column holds text; otherwise the result is a subsequence of the rows that keeps exactly the rows whose cell is a positive number, each as often as before |
| `CleanData.CleanBus` | scripts/02-clean_data.py:19-33 | succeeds iff every bus label occurs exactly once after renaming and the `min_gap` column holds no text; an absent or repeated label fails with `MissingColumn`/`DuplicateColumn` naming a bus label absent from, or repeated in, the renamed header; text in `min_gap` with a comparison error; the result has the six bus columns and holds, in order, exactly the projected raw rows with a positive `min_gap` |
| `CleanData.CleanSubway` | scripts/02-clean_data.py:45-56 | succeeds iff every subway label occurs exactly once after renaming, failing otherwise with `MissingColumn`/`DuplicateColumn` naming a subway label absent from, or repeated in, the renamed header; the result has the seven subway columns and holds every raw row, projected, in order |
| `CleanData.FilterSubway` | scripts/02-clean_data.py:69 | fails iff `min_delay` holds text, with a comparison error; otherwise keeps, in order, exactly the rows of the unfiltered table with a positive `min_delay` |
| `CleanData.DropMissingLength` | scripts/02-clean_data.py:94 | `dropna` keeps as many rows as there are present codes |
| `CleanData.PairProjection` | scripts/02-clean_data.py:82-84 | selecting a (code, description) pair of labels yields those two cells of every row |
| `CleanData.SelectPair` | scripts/02-clean_data.py:82-84 | selecting a pair of labels succeeds iff each label occurs exactly once |
| `CleanData.MergeCodes` | scripts/02-clean_data.py:82-100 | the merge succeeds iff the four menu labels each occur once, failing otherwise with `MissingColumn`/`DuplicateColumn` naming a menu label absent from, or repeated in, the header, and yields the columns `code`, `code_description` |
| `CleanData.MergeCodesRows` | scripts/02-clean_data.py:82-100 | the merged table holds every sub-menu row first, in order, then Scarborough RT rows that all have a code, as a subsequence of the RT pairs; its length is the number of sheet rows plus the number of RT codes present |
| `CleanData.SrtBlock` | scripts/02-clean_data.py:91-97 | the Scarborough RT block is a subsequence of the RT pairs, has one row per present RT code, and has no row with a missing code |
| `CleanData.CleanCodes` | scripts/02-clean_data.py:79-100 | succeeds iff each of the four menu labels occurs exactly once after renaming, failing otherwise with `MissingColumn`/`DuplicateColumn` naming one of the four menu labels absent from, or repeated in, the renamed header; the result has the columns `code`, `code_description` |
| `CleanData.FirstFailedCheck` | scripts/02-clean_data.py:109-126 | no assert fails iff both tables have seven distinct non-missing days, a `min_delay` whose minimum exists and is at least 0, a day column holding text and `min_delay`, `min_gap` columns without text; otherwise the assert named fails and every assert before it in script order holds, so it is the first failing one |
| `CleanData.NumericChecksThatCannotFail` | scripts/02-clean_data.py:113-126 | the `min_delay` dtype asserts never fail first, since a passing minimum assert rules out text; the bus `min_gap` one cannot fail once every bus row has a positive gap |
| `CleanData.Validate` | scripts/02-clean_data.py:106-126 | the tables pass unchanged iff every assert holds; a failure names the first failing assert in script order (it fails and every earlier one holds), never a `min_delay` dtype assert, and never the bus `min_gap` one when every bus gap is positive |
| `CleanData.CleanAll` | scripts/02-clean_data.py:16-126 | a successful run passed every validation assert on its subway and bus tables |
| `CleanData.CleanAllDtypeFailures` | scripts/02-clean_data.py:33-126 | a run never stops on the two `min_delay` dtype asserts, nor on the bus `min_gap` one, because the bus filter kept only positive gaps |
| `CleanData.CleanAllTables` | scripts/02-clean_data.py:16-103 | the tables of a successful run are the projected raw bus rows with a positive `min_gap`, every projected raw subway row, those with a positive `min_delay`, and the merged code table, all in input order |
| `CleanData.CleanAllSucceeds` | scripts/02-clean_data.py:16-126 | a run succeeds iff every selected label occurs exactly once, the columns compared with 0 hold no text, and every validation assert holds on the cleaned subway and bus tables |
| `ParseCodes.BusIncidentMapValid` | scripts/03-parse_codes.py:18-32 | every category of the bus lookup is one of the four |
| `ParseCodes.MapBusIncident` | scripts/03-parse_codes.py:35 | a text gets a category iff it is a key of the lookup, and then exactly the listed one, which is one of the four; any other text and a missing cell give a missing value |
| `ParseCodes.MapBusIncidents` | scripts/03-parse_codes.py:34-35 | the mapping rewrites only the incident of each row; row count, order and all other fields are unchanged |
| `ParseCodes.MapBusIncidentsFacts` | scripts/03-parse_codes.py:114 | the non-missing bus incidents are always among the four categories, and the mapping keeps the set of days |
| `ParseCodes.ClassifySubwayIncident` | scripts/03-parse_codes.py:46-59 | the classifier is total and always returns one of the four categories |
| `ParseCodes.ClassifyByAnyRule` | scripts/03-parse_codes.py:47-59 | the classifier returns the category of the rule whose prefix the code has, Miscellaneous when no prefix fits; the category is unique, so the rule order never decides |
| `ParseCodes.RuleMatch` | scripts/03-parse_codes.py:47-58 | any rule whose prefix a code has gives the classifier's category for it |
| `ParseCodes.ClassifyFallThrough` | scripts/03-parse_codes.py:59 | "M" codes with none of the five "MU" prefixes, the empty code and a missing code (printed "nan") are Miscellaneous |
| `ParseCodes.ClassifyExamples` | scripts/03-parse_codes.py:46-59 | E123, P001 are Equipment/Mechanical; S123 is Security/Safety; T001 is Operator; Z999 is Miscellaneous |
| `ParseCodes.ClassifyExamplesMU` | scripts/03-parse_codes.py:49-52 | MUIS1 is Security/Safety; MUD40 is Equipment/Mechanical |
| `ParseCodes.ClassifyCodes` | scripts/03-parse_codes.py:61-62 | the code table gains an incident column computed from each row's code; codes and descriptions are unchanged |
| `ParseCodes.Matches` | scripts/03-parse_codes.py:71 | the code rows matching a delay row are exactly those with an equal code (missing matching missing) |
| `ParseCodes.InnerJoin` | scripts/03-parse_codes.py:71 | an output row exists iff it pairs a delay row with a code row of equal code; a delay row with an unknown code produces nothing |
| `ParseCodes.MatchesUnique` | scripts/03-parse_codes.py:71 | with unique codes, a code matches one code row if known and none otherwise |
| `ParseCodes.JoinUniqueCodes` | scripts/03-parse_codes.py:71 | with unique codes, the join holds, in order, exactly the delay rows whose code is known, so its size is their number |
| `ParseCodes.Project` | scripts/03-parse_codes.py:74-82 | the projection keeps date, time, day, incident, min_delay, min_gap and line of each joined row, row by row |
| `ParseCodes.NormaliseLine` | scripts/03-parse_codes.py:85-100 | the result is a canonical line name or "Other"; a listed alias maps as listed; "Other" exactly when the line is missing or not listed |
| `ParseCodes.LineValuesNotOther` | scripts/03-parse_codes.py:85-98 | no canonical line name is "Other" |
| `ParseCodes.NormaliseLineExamples` | scripts/03-parse_codes.py:85-100 | "YU" and "YUS" give Yonge-University; "ZZZ" and a missing line give "Other" |
| `ParseCodes.NormaliseLines` | scripts/03-parse_codes.py:100 | every row gets its normalised line, row by row |
| `ParseCodes.TextLtIrreflexive` | scripts/03-parse_codes.py:103 | no text sorts before itself |
| `ParseCodes.TextLtTrichotomy` | scripts/03-parse_codes.py:103 | any two texts are equal or one sorts before the other |
| `ParseCodes.TextLtTransitive` | scripts/03-parse_codes.py:103 | text order is transitive |
| `ParseCodes.DateTimeLeTotal` | scripts/03-parse_codes.py:103 | any two rows are ordered by (date, time) one way or the other |
| `ParseCodes.DateTimeLeTransitive` | scripts/03-parse_codes.py:103 | the (date, time) order is transitive |
| `ParseCodes.DateTimeNotLt` | scripts/03-parse_codes.py:103 | a row not strictly before another is after it or ties with it |
| `ParseCodes.DateTimeLtLe` | scripts/03-parse_codes.py:103 | strictly before then not after is strictly before, and never a tie |
| `ParseCodes.InsertFront` | scripts/03-parse_codes.py:103 | a row no later than the head of a sorted table can go first |
| `ParseCodes.Insert` | scripts/03-parse_codes.py:103 | inserting into a sorted table keeps it sorted and adds exactly that row |
| `ParseCodes.SortByDateTime` | scripts/03-parse_codes.py:103 | the sorted table is a permutation of its input, non-decreasing in (date, time) compared as text |
| `ParseCodes.TiesSnoc` | scripts/03-parse_codes.py:103 | appending a row appends it to its ties |
| `ParseCodes.InsertTies` | scripts/03-parse_codes.py:103 | an inserted row goes after every row it ties with |
| `ParseCodes.SortByDateTimeStable` | scripts/03-parse_codes.py:103 | the sort is stable: the rows of any one date and time come out in their input order, as in pandas' sort by several columns |
| `ParseCodes.CategoriseSubway` | scripts/03-parse_codes.py:68-103 | the categorised subway table is sorted by (date, time) and has one row per matching (delay, code) pair of the inner join (its rows: `CategoriseSubwaySameRows`, `CategoriseSubwaySound`, `CategoriseSubwayComplete`; stability: `SortByDateTimeStable`) |
| `ParseCodes.CategoriseSubwaySameRows` | scripts/03-parse_codes.py:103 | sorting keeps exactly the rows of the categorised table |
| `ParseCodes.CategoriseSubwaySound` | scripts/03-parse_codes.py:71-103 | every categorised row comes from a delay row and a code row with equal codes; its incident is a category and its line canonical or "Other" |
| `ParseCodes.CategoriseSubwayComplete` | scripts/03-parse_codes.py:71-103 | every delay row paired with a code row of equal code yields a categorised row |
| `ParseCodes.CategoriseSubwayIncidents` | scripts/03-parse_codes.py:110-113 | the categorised subway incidents are always a subset of the four categories |
| `ParseCodes.FirstFailedParseCheck` | scripts/03-parse_codes.py:110-122 | no assert fails iff the subway incidents are exactly the four categories, the bus incidents among them, both tables have seven days and both are non-empty; otherwise the assert named fails and every assert before it in script order holds |
| `ParseCodes.MinDelayChecksPass` | scripts/03-parse_codes.py:117-122 | the two `min_delay >= 0` asserts never fail, because seven days imply a non-empty table |
| `ParseCodes.ChecksPassWhen` | scripts/03-parse_codes.py:113-122 | for tables whose incidents are categories, the asserts pass iff every category occurs in the subway table and both tables have seven days |
| `ParseCodes.CheckOutputs` | scripts/03-parse_codes.py:112-121 | the outputs pass, unchanged, iff no assert fails; a failure is the first failing assert, never a `min_delay` one, and never the bus incident one when every bus incident is a category |
| `ParseCodes.ParseAll` | scripts/03-parse_codes.py:15-122 | a successful run outputs the mapped bus table, the classified codes and the sorted categorised subway table; a failure is the first failing assert on those outputs (`FirstFailedParseCheck`), and is only ever the subway category set or a day count |
| `ParseCodes.ParseAllSucceeds` | scripts/03-parse_codes.py:113-122 | the stage succeeds iff all four categories occur among the categorised subway rows and both tables have seven distinct days |
| `SummariseData.FilterEqualCount` | scripts/04-summarise_data.py:52-56 | a group's size is the number of occurrences of its key |
| `SummariseData.GroupSizes` | scripts/04-summarise_data.py:52-56 | one row per distinct key, in order of first appearance, each holding the number of rows with that key, at least 1 (sum of sizes: `GroupSizesTotal`) |
| `SummariseData.GroupSizesFacts` | scripts/04-summarise_data.py:52-56 | the size table lists exactly the keys that occur, each once, each with the number of rows having it, never 0 |
| `SummariseData.SumSizesOver` | scripts/04-summarise_data.py:52-56 | the sizes over some keys add up to those keys' occurrences |
| `SummariseData.GroupSizesTotal` | scripts/04-summarise_data.py:52-56 | conservation: the group sizes add up to the number of rows |
| `SummariseData.DelaysOf` | scripts/04-summarise_data.py:67-72 | a (date, day) group holds one delay per row with that date and day |
| `SummariseData.DelaysOfRows` | scripts/04-summarise_data.py:67-72 | the delays of a group are the `min_delay` column of the rows whose (date, day) is the key, in table order |
| `SummariseData.TotalOf` | scripts/04-summarise_data.py:67-73 | the n of a listed (date, day) is its number of rows and at least 1, so the mean is defined |
| `SummariseData.TotalsOver` | scripts/04-summarise_data.py:67-73 | one per-date row per key, in key order |
| `SummariseData.TotalsByDate` | scripts/04-summarise_data.py:67-73 | one row per distinct (date, day), in order of first appearance, whose `n` is the number of rows with that date and day, at least 1 (sum, mean: `TotalsByDateFacts`, `DelaysOfRows`) |
| `SummariseData.TotalsByDateFacts` | scripts/04-summarise_data.py:67-73 | each per-date row's total is the sum of the group's delays, n their number (non-zero) and the mean total / n; the (date, day) pairs listed are the distinct pairs of the rows |
| `SummariseData.TotalsByDateCount` | scripts/04-summarise_data.py:67-72 | conservation: the n column adds up to the number of rows |
| `SummariseData.SumBounds` | scripts/04-summarise_data.py:73 | a sum of delays between lo and hi lies between count × lo and count × hi |
| `SummariseData.DivisionBounds` | scripts/04-summarise_data.py:73 | dividing such a total by the count lands between lo and hi |
| `SummariseData.MeanWithinGroup` | scripts/04-summarise_data.py:73 | `mean_delay_time` lies between the smallest and the largest delay of its group |
| `SummariseData.ExampleDelays` | scripts/04-summarise_data.py:29-32 | two rows of one date with delays 10 and 20 form the group [10, 20] |
| `SummariseData.TotalsByDateExample` | scripts/04-summarise_data.py:29-35 | delays of 10 and 20 on one date give total 30, n 2 and mean 15 |
| `SummariseData.NsOfDay` | scripts/04-summarise_data.py:59-64 | a day listed in the size table has at least one size to average |
| `SummariseData.NsOfDayRows` | scripts/04-summarise_data.py:59-64 | the sizes averaged for a day are the `n` column of the size rows of that day, in table order |
| `SummariseData.AvgNumDelaysByDay` | scripts/04-summarise_data.py:52-64 | every day's mean number of delays per date is at least 1, since a listed date has a delay (days: `AvgNumDelaysDays`; mean: `DayMeanMeaning`) |
| `SummariseData.DayMeansAtLeastOne` | scripts/04-summarise_data.py:59-64 | when every per-date size is at least 1, every per-day mean of sizes is at least 1 |
| `SummariseData.DayMeans` | scripts/04-summarise_data.py:59-64 | one row per distinct day of the size table, in order of first appearance, holding the mean of that day's sizes, which are never empty |
| `SummariseData.NsOfDaySizes` | scripts/04-summarise_data.py:59-64 | the sizes of one day are the sizes over the keys of that day |
| `SummariseData.DayMeanMeaning` | scripts/04-summarise_data.py:52-64 | `mean_num_delays` of a day is the number of rows with that day divided by the number of distinct dates among them |
| `SummariseData.SizeDaysOfKeys` | scripts/04-summarise_data.py:52-64 | the size table carries exactly the days of the rows |
| `SummariseData.AvgNumDelaysDays` | scripts/04-summarise_data.py:19-26 | the per-day table lists exactly the days that occur, each once; a day without rows gets no row |
| `SummariseData.PresentIncidents` | scripts/04-summarise_data.py:38-43 | the grouped bus incidents are the non-missing ones, one per row with an incident |
| `SummariseData.PresentIncidentsCount` | scripts/04-summarise_data.py:38-43 | a bus incident occurs among the grouped incidents once per row carrying it |
| `SummariseData.BusIncidentCounts` | scripts/04-summarise_data.py:38-43 | each row counts a present incident as often as it occurs among the rows' present incidents, at least once (keys and totals: `BusIncidentCountsFacts`) |
| `SummariseData.BusIncidentCountsFacts` | scripts/04-summarise_data.py:38-43 | each present bus incident is listed once, with the number of rows carrying it, and the counts add up to the rows with a non-missing incident |
| `SummariseData.ColumnValues` | scripts/04-summarise_data.py:76-89 | a column holds exactly the values its rows carry |
| `SummariseData.ColumnCountsFacts` | scripts/04-summarise_data.py:76-89 | grouping by a column lists each of its values once, with the number of rows carrying it, and the counts add up to the number of rows |
| `SummariseData.SubwayIncidentCounts` | scripts/04-summarise_data.py:76-81 | each row counts a subway incident as often as it occurs in the incident column, at least once (keys and totals: `SubwayIncidentCountsFacts`) |
| `SummariseData.SubwayIncidentCountsFacts` | scripts/04-summarise_data.py:76-81 | each subway incident is listed once, with the number of rows carrying it, and the counts add up to the number of subway rows |
| `SummariseData.LineCounts` | scripts/04-summarise_data.py:84-89 | each row counts a line as often as it occurs in the line column, at least once (keys and totals: `LineCountsFacts`) |
| `SummariseData.LineCountsFacts` | scripts/04-summarise_data.py:84-89 | each line is listed once, with the number of rows on it, and the counts add up to the number of subway rows, since a normalised line is never missing |
| `SummariseData.Summarise` | scripts/04-summarise_data.py:19-89 | the seven summary tables; no row describes an empty group: every count and every `n` is at least 1 and every per-day mean is at least 1 (totals: `SummariseConservation`) |
| `SummariseData.SummariseConservation` | scripts/04-summarise_data.py:19-89 | every count table of the stage adds up to the rows it counts |

## Left out

- Downloading the sheets, the simulator, and reading and writing CSV and Excel files are left out. These are network, random-number and file I/O. Each stage takes and returns in-memory tables. The fixed file paths are not modelled.
- Files are written before the validation asserts run. A failing run therefore leaves its outputs on disk; the model only returns the failure.
- `pd.to_datetime(...).dt.date` on the date column is not modelled: dates are opaque text keys. Two spellings of the same day would form two groups here.
- The means are Dafny reals, not floating-point numbers.
- Numeric cells (`Num` in `CleanData`) hold whole numbers. pandas reads `min_delay` and `min_gap` as float64, so a fractional gap such as 0.5, which passes the `min_gap > 0` filter at scripts/02-clean_data.py:33, cannot be represented.
- The dtype asserts of the cleaning stage are modelled on the untyped frames (`CleanData.FirstFailedCheck`). A column counts as text when some cell is text, as numeric when none is; a real CSV reader infers dtypes by its own rules. The dtype asserts of the classification stage (scripts/03-parse_codes.py:124-133) are not modelled: its typed rows make them hold by construction.
- The `del` workspace cleanup is not modelled.
- The CSV round trip between stages is not modelled. The cleaned frames of the cleaning stage are not converted into the typed rows that the classification stage reads. The model assumes that in the rows read by the later stages, date, time and day are present and `min_delay` is a present natural number. The cleaning asserts do not guarantee this: `min()` and `nunique()` skip missing cells, and date and time are never checked.
- `CleanData.Select`: when a label occurs more than once after renaming, the model reports `DuplicateColumn`. pandas would instead select every column carrying that label.
- `CleanData.NormaliseName` lower-cases ASCII letters only. Python's `str.lower()` also maps non-ASCII upper-case letters.
- `CleanData.MergeCodes`: the renaming dictionaries on both menu blocks are folded into the constant output header `code`, `code_description`.
- `CleanData.CleanAll`: a `min()` over text is a TypeError in pandas, while the model treats it as a failed assert. Both stop the run.
- `CleanData.CleanAll`: does not state that the cleaned code table is rectangular.
- `SummariseData.TotalOf`: `n=("min_delay", "count")` counts non-missing delays only. Since `min_delay` is never missing in the model, `n` is the group size. With a missing delay, pandas would give a smaller `n`, or `n` = 0 and a NaN mean.
- `SummariseData.TotalsByDateCount`: the conservation holds because date and day are never missing in the model. pandas `groupby` drops rows with a missing key, which would make the counts add up to less.
- pandas `groupby` sorts its output by key. The model lists groups in the order their keys first appear. The contents of each group are the same.
- `observed=False` at scripts/04-summarise_data.py:21 has no effect: the day column is plain text, not categorical. A day with no rows gets no row, as `SummariseData.AvgNumDelaysDays` states. The code is followed here, not the intended Monday-to-Sunday categorical ordering with all seven levels.
- pandas `merge` matches a missing code with a missing code. The model does the same, because `None == None` holds.
