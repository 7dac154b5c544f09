# Expense export transform, modelled in Dafny

`process_data` turns the exported table of transactions into the five-column
expense table. A CSV file is read into a pandas DataFrame, and then a single
method chain runs over it:

- `assign` replaces three columns. `millisSinceEpochStart` becomes a
  `MM/DD/YYYY` date. `type` is mapped to -1/1. `category` is mapped to its
  display name.
- `rename` renames five columns.
- `drop` removes `id` and `millisSinceEpochEnd`.
- `reindex` projects onto `Date, Intitulé, Montant, Type, Revenu/Dépense`.

The project models that chain and proves what it does, cell by cell and row
by row. Each file is one module:

- `calendar.dfy` (`Calendar`): the proleptic Gregorian calendar on day
  numbers counted from 1970-01-01. `DaysFromCivil` is the reference: a date
  to its day number. `CivilFromDays` goes the other way, by 400-, 100-, 4-
  and 1-year cycles. The two are proved inverse in both directions.
- `date_format.dfy` (`DateFormat`): strftime's `%m/%d/%Y` with zero padding,
  and a parser that inverts it.
- `timestamps.dfy` (`Timestamps`): `to_datetime(unit='ms')` then
  `strftime`.
  - The instant is read as UTC.
  - It must fit pandas's signed 64-bit nanosecond timestamp. The smallest
    value is reserved for NaT.
  - It is rendered as the day that contains it, using floor division, so
    instants before 1970 fall on the earlier day.
  - All such days lie in the years 1677 to 2262.
- `frames.dfy` (`Frames`): a column-major DataFrame (a row count plus
  labelled columns) and the pandas operations the chain uses. Each has its
  error behaviour:
  - `df[name]` raises a KeyError;
  - `Series.map(dict)`: values not in the dict become NaN;
  - `rename` ignores absent labels;
  - `drop` raises a KeyError that lists the missing labels, or every
    requested label when the axis has a repeated label;
  - `reindex` onto a target without repeats raises a ValueError on a
    duplicated axis, and fills absent labels with NaN.
- `data_process.dfy` (`DataProcess`):
  - the constants of the transform;
  - the chain itself (`ProcessData`);
  - an independent, row-wise reference (`ExpectedRow`, `ExpectedError`,
    `Accepted`), and the lemmas tying the chain to it.
- `wrappers.dfy` (`Wrappers`): `Option` and `Result`.

A cell is `Missing` (pandas's NaN/NaT), an `Int`, a `Float` (an opaque real)
or a `Text`. The input is a well-formed frame: every column has one cell per
row, and no label repeats (`read_csv` renames repeated headers).

`label` and `value` are not required columns. When either is absent, the
reindex fills its output column with NaN, unless the input already has a
column under the output name (`Intitulé`, `Montant`), which is then carried
through (`Carried`, `ExpectedRow`).

## Model

| member | source | states |
|---|---|---|
| Calendar.DaysFromCivil | scripts/data_process.py:49 | the day number of a valid date lies between the first days of its year and of the next year |
| Calendar.CivilFromDays | scripts/data_process.py:49 | every day number gives a valid date (month 1..12, day within that month's length) whose day number is the input |
| Calendar.DaysFromCivilRoundTrip | scripts/data_process.py:49 | converting a valid date to its day number and back gives the same date |
| Calendar.DaysFromCivilInjective | scripts/data_process.py:49 | two valid dates with the same day number are equal |
| Calendar.YearStartsIncrease | scripts/data_process.py:49 | each year starts after the previous one ends (by induction on the year gap) |
| Calendar.MonthAndDay | scripts/data_process.py:49 | the month scan gives a valid date in the year whose offset from the year start is the given day of year |
| Calendar.YearAndDayOfOrdinal | scripts/data_process.py:49 | an ordinal splits into a year and a day of that year, less than the year's length, summing back to the ordinal |
| DateFormat.Digits | scripts/data_process.py:49 | a zero-padded field has exactly the requested width, all decimal digits |
| DateFormat.DigitsValueOfDigits | scripts/data_process.py:49 | reading back a zero-padded field gives the number |
| DateFormat.DigitsOfDigitsValue | scripts/data_process.py:49 | re-padding the value of a digit string gives the string |
| DateFormat.FormatDate | scripts/data_process.py:49 | `%m/%d/%Y` is ten characters: two digits, `/`, two digits, `/`, four digits |
| DateFormat.ParseFormatDate | scripts/data_process.py:49 | parsing the formatted date gives the date back |
| DateFormat.FormatParseDate | scripts/data_process.py:49 | formatting a parsed `MM/DD/YYYY` string gives the string back |
| Timestamps.DayOfMillis | scripts/data_process.py:49 | the day of an instant is the floor: the instant lies within that day's milliseconds |
| Timestamps.DayOfRealMillis | scripts/data_process.py:49 | the same floor day for a float millisecond count: the instant lies within that day |
| Timestamps.TimestampYears | scripts/data_process.py:49 | every day a pandas timestamp reaches lies in a year from 1677 to 2262 (so `%Y` always has four digits) |
| Timestamps.FormatDay | scripts/data_process.py:49 | the text of a reachable day parses back to that day's date |
| Timestamps.FormatMillis | scripts/data_process.py:49 | an in-range millisecond count renders as a valid date whose day contains the instant |
| Timestamps.FormatRealMillis | scripts/data_process.py:49 | the same for a float millisecond count (a column holding NaN is read as floats) |
| Timestamps.FormatMillisUnique | scripts/data_process.py:49 | any valid date whose day contains the instant is the one rendered |
| Timestamps.EpochIsFirstOfJanuary1970 | scripts/data_process.py:49 | 0 ms renders as `01/01/1970` |
| Timestamps.OneTrillionMillisIsNinthOfSeptember2001 | scripts/data_process.py:49 | 1000000000000 ms renders as `09/09/2001` |
| Timestamps.NewYear2021 | scripts/data_process.py:49 | 1609459200000 ms renders as `01/01/2021` |
| Timestamps.LastMillisecondBeforeEpoch | scripts/data_process.py:49 | -1 ms renders as `12/31/1969` (floor, not truncation) |
| Frames.Lookup | scripts/data_process.py:49-51 | the lookup finds nothing exactly when no column has the label, and otherwise returns a column of the frame with that label |
| Frames.LookupFirst | scripts/data_process.py:49-51 | the column found is the first one carrying the label |
| Frames.LookupFinds | scripts/data_process.py:49-51 | with distinct labels, each column is the one its label looks up |
| Frames.Select | scripts/data_process.py:49-51 | `df[name]` raises KeyError([name]) exactly when the label is absent, and otherwise returns that column |
| Frames.SetColumn | scripts/data_process.py:48-52 | assigning an existing column replaces the cells of the columns with that label and keeps every label, position and other column |
| Frames.SelectAfterSet | scripts/data_process.py:48-52 | a later lambda of the same `assign` reads a different column unchanged by the earlier ones |
| Frames.MapCells | scripts/data_process.py:50-51 | `Series.map` maps cell by cell and keeps the length |
| Frames.MapCell | scripts/data_process.py:50-51 | a text cell found in the table maps to its entry, and every other cell (unknown text, a number, NaN) maps to Missing |
| Frames.Rename | scripts/data_process.py:53 | each column keeps its cells and position and gets the renamed label (absent labels are ignored) |
| Frames.NotFound | scripts/data_process.py:54 | the labels reported missing are exactly the requested labels the frame lacks |
| Frames.Drop | scripts/data_process.py:54 | drop fails exactly when a requested label is absent, with a KeyError listing the missing ones on an axis without repeats and every requested label on an axis with a repeated label; otherwise it keeps exactly the columns whose label is not dropped |
| Frames.WithoutMembers | scripts/data_process.py:54 | the kept columns are exactly the columns whose label is not dropped |
| Frames.WithoutDistinct | scripts/data_process.py:54-55 | after a drop, the labels are distinct exactly when no two kept columns shared a label |
| Frames.DropKeepsRectangular | scripts/data_process.py:54 | dropping keeps one cell per row in every remaining column |
| Frames.Reindex | scripts/data_process.py:55 | for a target list without repeats, reindex fails with the duplicate-label error exactly when labels repeat; otherwise the columns are the target labels in order, each holding its column's cells or all Missing |
| Frames.ReindexCell | scripts/data_process.py:55 | cell i of reindexed column t is what the frame held under the t-th target label |
| DataProcess.DateCell | scripts/data_process.py:49 | NaN and the NaT encoding (the int64 minimum, as an integer or a float) give a missing date, an in-range number becomes date text, and text or any other out-of-range number is an error of the matching kind (both directions) |
| DataProcess.DateCellInstant | scripts/data_process.py:49 | the date text of a converted timestamp names the UTC day that contains the instant |
| DataProcess.DateText | scripts/data_process.py:49 | a converted timestamp is `MM/DD/YYYY` naming a valid date with a year from 1677 to 2262 |
| DataProcess.Reassigned | scripts/data_process.py:48-52 | the column `assign` leaves in place of a column keeps its label and its length |
| DataProcess.DateCells | scripts/data_process.py:49 | the column converts exactly when every cell does, cell by cell; otherwise the error is that of the first bad cell |
| DataProcess.Assign | scripts/data_process.py:48-52 | the three reads fail in kwargs order with the expected error; on success the labels are kept and each column is reassigned in place |
| DataProcess.AssignedCell | scripts/data_process.py:48-52 | after `assign`, the start label holds the date of its timestamp, `type` the direction sign, `category` the display name, any other label its old cell |
| DataProcess.DirectionMapping | scripts/data_process.py:50 | `map({'expense': -1, 'income': 1})` is -1 for expense, 1 for income, and Missing for anything else |
| DataProcess.CategoryMapping | scripts/data_process.py:26-51 | `map(categories)` is the display name of each of the eight codes and Missing for anything else |
| DataProcess.RenamesShape | scripts/data_process.py:36-44 | no new name is itself renamed or dropped, the new names are distinct, and each output column has one source label |
| DataProcess.RenameKeepsDropped | scripts/data_process.py:43-53 | the rename neither adds nor removes `id` or `millisSinceEpochEnd` |
| DataProcess.RenamedKeptDistinct | scripts/data_process.py:53-55 | after rename and drop, two kept columns share a label exactly when a renamed column meets a column already under its new name |
| DataProcess.RenamedDistinct | scripts/data_process.py:43-53 | the renamed frame repeats a label exactly when a renamed column meets a column already under its new name |
| DataProcess.RenameDropErrors | scripts/data_process.py:53-55 | the drop fails exactly when `id` or `millisSinceEpochEnd` is missing, listing the missing ones, or both when two columns share an output name; the reindex fails exactly when two columns share an output name |
| DataProcess.RenamedDroppedCell | scripts/data_process.py:53-55 | after rename and drop, each output label carries its source column, or else a column already under that name, or else nothing |
| DataProcess.ProcessData | scripts/data_process.py:46-56 | a table the chain returns has the input's row count and the five output labels in order; ProcessDataErrors, ProcessDataShape and ProcessDataRows state the rest |
| DataProcess.OrderDistinct | scripts/data_process.py:44 | the output column order has no repeated label |
| DataProcess.ProcessDataErrors | scripts/data_process.py:46-56 | the transform fails exactly on the inputs not accepted, and then with the first error the chain meets, including the drop's KeyError listing both dropped labels when two columns share an output name |
| DataProcess.ProcessDataShape | scripts/data_process.py:44-56 | an accepted input gives as many rows as the input, and the columns `Date, Intitulé, Montant, Type, Revenu/Dépense` in that order |
| DataProcess.ProcessDataRows | scripts/data_process.py:46-56 | output row i is the expected row built from input row i alone |
| DataProcess.OutputCell | scripts/data_process.py:46-56 | cell i of output column t is entry t of the expected row |
| DataProcess.ExpectedEntry | scripts/data_process.py:48-53 | entry t of the expected row is what the assigned frame holds under output column t's source label, or else under its output label |
| DataProcess.DroppedColumnsAbsent | scripts/data_process.py:43-54 | `id` and `millisSinceEpochEnd` never reach the output |
| DataProcess.UnknownDirection | scripts/data_process.py:50 | a type other than expense or income leaves a missing `Revenu/Dépense` and the row is kept |
| DataProcess.MissingTime | scripts/data_process.py:49 | a missing start time, or one equal to the NaT encoding as an integer or a float, leaves a missing `Date` and the row is kept |
| DataProcess.UnknownCategory | scripts/data_process.py:51 | a category outside the eight codes leaves a missing `Type` and the row is kept |
| DataProcess.MissingSourceColumns | scripts/data_process.py:49-51 | a missing `millisSinceEpochStart`, `type` or `category` column is the KeyError of reading it, in that order |
| DataProcess.MissingDroppedColumns | scripts/data_process.py:43-54 | a missing `id` or `millisSinceEpochEnd` is the drop's KeyError listing each missing one, or both dropped labels when two columns also share an output name |
| DataProcess.BadTimestamp | scripts/data_process.py:49 | a start column with an unconvertible value fails with the error of the first such value |
| DataProcess.ClashingNames | scripts/data_process.py:53-55 | a renamed column meeting a column already under its new name makes the reindex fail |
| DataProcess.ExampleRow | scripts/data_process.py:46-56 | the record `id=1, start=1609459200000, type=expense, category=grocery, label=Milk, value=3.5` becomes `01/01/2021, Milk, 3.5, Course, -1` |

## Left out

- Reading and writing CSV (`read_csv`, `to_csv`) and the `main` wrapper
  (argument parsing, default paths, printing the error, exit codes) are not
  modelled; the input is an in-memory frame.
- pandas dtype inference is not modelled. The model takes the cell kinds as
  given: an integer timestamp column is read as `Int` cells, and a column
  holding NaN as `Float` cells and `Missing`. The output's dtypes are not
  modelled either: once any `type` is unknown, `map` yields NaN and pandas
  stores the whole `Revenu/Dépense` column as floats (`-1.0`), where the
  model keeps `Int(-1)`.
- Floating point is not modelled. `Float` cells carry exact reals. The date
  of a float timestamp is the floor of the exact quotient, so pandas's
  rounding to whole nanoseconds near a day boundary is not captured.
- DateCells: the model reports the first bad cell. pandas reports a
  message of its own, and wording and choice of value are not modelled.
  Exception messages in general are reduced to their kind and the labels
  involved.
- DataProcess.Assign: only the replacing form of `assign` is modelled,
  because the chain only assigns columns that it has just read. The
  appending branch of `assign` is not modelled.
- Calendar.CivilFromDays: computed by the ordinal cycle decomposition, not
  by pandas's own conversion code. It is tied to pandas's behaviour only
  through the reference `DaysFromCivil` and the spot checks.
- DataProcess.DateCell: a Text cell in the timestamp column is always an
  error. pandas first tries to read numeric text there as a number, and
  reads the NaT spellings (`NaT`, `nat`, `NAT`, `NAN`), which `read_csv`
  leaves as text, as a missing time; the model does neither.
- Frames.Reindex: only target lists without repeats are modelled, because
  the chain reindexes onto five distinct labels. pandas also accepts a
  repeated target, and does not raise when that target equals the axis.
