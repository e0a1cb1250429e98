# GitHub usage analyzer, modelled in Dafny

`index.php` takes a GitHub usage-billing CSV upload and turns it into four summary tables of GitHub
Actions usage: per day, per user, per workflow and per repository. For each group a table shows the
minutes used, the cost in dollars and, except in the per-repository table, the repositories involved.
This project models the analysis in `handle_file_upload` and the `reduce_by_column` reducer, and proves
what they compute:

- The upload checks. No file; no declared type; a type other than `text/csv`; a file that cannot be
  opened; a file without a header line.
- The header check against the field mapping of eleven labels. A header that lacks labels is rejected
  with the exact message naming them.
- The ingestion loop. Lines whose Product is not `Actions` are skipped. Every other line is mapped
  through the header to a `UsageRow`, with Quantity cast to an integer and the two prices cast to
  numbers.
- The desired precision. This is the largest number of decimals of any row's price.
- The four folds of `reduce_by_column`. Each is an ordered map from key to bucket. A row in a unit
  other than `minute` throws.
- The finalisation loop. It removes or joins the repositories and pads each cost to the desired
  number of decimals. The padding is modelled as evidently intended, with a point before the zeros of
  a cost written without one; the padding as written is `Precision.PadAsWritten` (see Findings).

Modules, one file each:

- `Wrappers`: `Option` and `Result`.
- `Decimal`: exact fixed-point numbers (`Fixed(units, places)` is units / 10^places). It also holds
  PHP's `(string)` of a number (`Render`), its `(int)`/`(float)` casts of a cell (`ParseNat`,
  `ParseDecimal`) and the decimals count `(int) strpos(strrev(s), ".")` (`DecimalPlaces`).
- `Lists`: `array_flip` (`LastIndex`), `array_unique` (`Dedup`) and `implode` (`Join`).
- `UsageCsv`: the field mapping, the header check, the row mapping and the ingestion loop
  (`ReadRows`).
- `Reducer`: the reducer closure (`Insert`, `Step`) and its fold (`ReduceBy`). The fold is
  characterised by a specification table (`Expected`), built from the distinct keys in
  first-occurrence order and the rows of each key.
- `Precision`: the desired decimals, and the padding as written (`PadAsWritten`) and as intended
  (`PadCost`).
- `Report`: the four folds (`Aggregate`), the finalisation loops (`Finalize`), the upload outcome
  (`Analyze`) and the handler as a method (`HandleFileUpload`).

PHP floats are modelled as exact decimals. A price keeps its value and not its text, so a cast price
is stored in canonical form, without trailing zeros, as a float would hold it. Costs are summed
exactly. The model's `(string)` (`Render`) writes the exact decimal with no trailing zeros. PHP tables are ordered maps; here they are
sequences of key/bucket entries in insertion order.

## Model

| member | source | states |
|---|---|---|
| UsageCsv.Missing | index.php:178 | `array_diff` of the labels and the header: exactly the labels that no header cell holds, each once, in the order of the field mapping |
| UsageCsv.MissingLabelsEmpty | index.php:178-182 | no label is reported missing if and only if the header holds all eleven labels of the field mapping |
| UsageCsv.MissingMessageAt | index.php:180 | in the rejection text every missing label follows the fixed text and the earlier labels, each followed by `, `, and is itself followed by `, ` unless it is the last |
| UsageCsv.MissingMessage | index.php:180 | the rejection text is the fixed `Malformed CSV file, missing header fields: ` followed by the missing labels: exactly the fixed text and the label when one is missing; otherwise it starts with the first label, ends with the last and is as long as the labels and one `, ` between each two |
| UsageCsv.LabelsDistinct | index.php:160-172 | the field mapping's labels are distinct |
| Lists.LastIndex | index.php:175 | `array_flip` sends a header label to its last column: a position holding the label with no later one |
| UsageCsv.Field | index.php:198 | the cell under a header label is a cell of the line, or empty when the line is too short; on a line as wide as the header it is the cell of the label's last column |
| Lists.FirstIndex | index.php:106-114 | the first position of a key, which is the position of its bucket in an ordered map |
| UsageCsv.KeptRows | index.php:191-210 | the kept rows are never more than the data lines, and every kept row's Product is `Actions` |
| UsageCsv.MapRow | index.php:196-208 | the mapped row's Product is the very cell the filter reads, and both cast prices are canonical numbers |
| UsageCsv.MapRowKeys | index.php:196-208 | the four grouping fields of a mapped row are the cells under Date, Username, Actions Workflow and Repository Slug |
| UsageCsv.MapRowFields | index.php:196-208 | the other fields of a mapped row are the cells under their own labels: SKU, Unit Type and Owner as they are, Quantity through the `(int)` cast and both prices through the `(float)` cast |
| UsageCsv.MapRowPrices | index.php:200-207 | the stored prices have the values the `(float)` casts of their cells read |
| UsageCsv.ReadRows | index.php:191-210 | the `while (fgetcsv(...))` loop appends, in order, exactly the mapped rows of the lines whose Product is `Actions` |
| UsageCsv.KeptRowsAppend | index.php:191-210 | reading two runs of lines one after the other keeps the rows of the first, then those of the second |
| UsageCsv.KeptRowsSkip | index.php:193-195 | a line whose Product is not exactly `Actions` leaves no trace, wherever it stands |
| UsageCsv.KeptRowsKeep | index.php:196-209 | an `Actions` line contributes exactly its mapped row, in its place |
| UsageCsv.KeptRowsCanonical | index.php:202-207 | every kept price is a number, not a text: canonical, without trailing zeros |
| Decimal.DigitsValueConcat | index.php:203 | the value of two digit strings written one after the other |
| Decimal.NatToString | index.php:216 | the decimal digits of a number: all digits, no leading zero, and reading them gives the number back |
| Decimal.NatToStringLength | index.php:216 | a number below 10^n has at most n digits |
| Decimal.Zeros | index.php:252 | the `str_pad("", n, "0")` string: n zero digits, of value 0 |
| Decimal.PadLeft | index.php:216 | left padding with zeros keeps the digits' value |
| Decimal.Canonical | index.php:203 | stripping trailing zeros gives a canonical number with no more decimals |
| Decimal.CanonicalValue | index.php:203 | stripping trailing zeros keeps the value |
| Decimal.Rescale | index.php:121 | rescaling a number to more decimals gives that many decimals |
| Decimal.RescaleValue | index.php:121 | rescaling keeps the value |
| Decimal.Add | index.php:121 | the sum of two costs has the larger of their decimals |
| Decimal.AddValue | index.php:121 | `+=` on costs adds their values exactly |
| Decimal.Scale | index.php:121 | amount times price keeps the price's decimals |
| Decimal.ScaleValue | index.php:121 | amount times price multiplies the price's value exactly |
| Decimal.FractionDigits | index.php:216 | the digits after the point: exactly `places` of them, reading as the fractional units |
| Decimal.Render | index.php:216 | `(string)` of a number reads back, through the `(float)` cast, as that number in canonical form |
| Decimal.ParseNat | index.php:200 | the `(int)` cast reads a digit string as its value, and a cell that does not start with a digit as 0 |
| Decimal.ParseDecimalNoPoint | index.php:203 | on a cell without a point the `(float)` cast reads the same whole number as the `(int)` cast |
| Decimal.ParseDecimalParts | index.php:203 | the `(float)` cast of `w.f` reads w's digits followed by f's, with f's length as decimals |
| Decimal.ParseDecimalWhole | index.php:203 | the `(float)` cast of plain digits reads them as a whole number |
| Decimal.DecimalPlaces | index.php:216 | `strpos(strrev(s), ".")`: the count of characters after the last point, 0 when there is none |
| Decimal.DecimalPlacesAfterPoint | index.php:216 | `w.f` with no point in f has as many decimals as f has characters |
| Decimal.DecimalPlacesOfRender | index.php:251 | the `(string)` of a number has exactly its canonical decimals |
| Lists.Dedup | index.php:249 | `array_unique`: each element once, and exactly the elements of the input |
| Lists.DedupOrder | index.php:249 | `array_unique` keeps elements in the order of their first occurrence |
| Lists.FirstIndexUnique | index.php:249 | a position before which an element never occurs is its first occurrence |
| Lists.FirstIndexAppend | index.php:249 | appending elements does not move an existing element's first occurrence |
| Lists.JoinAt | index.php:249 | `implode` holds every element at its offset, after the earlier elements and one separator each, and a separator follows every element but the last |
| Lists.Join | index.php:249 | `implode`: empty for no elements and the element itself for one; otherwise it starts with the first element, ends with the last and is exactly as long as the elements plus one separator between each two |
| Lists.JoinContains | index.php:249 | every element of the list occurs in its `implode` |
| Reducer.Insert | index.php:106-122 | a row in minutes changes only the bucket of its key: it creates the bucket when the key is new, at the end, and credits it with the row |
| Reducer.Step | index.php:116-117 | the closure throws if and only if the row's unit type is not `minute`, with the message `Unexpected unit type '<type>'` |
| Reducer.ReduceBy | index.php:104-126 | a fold that succeeds has no more buckets than rows and distinct keys; a fold that throws does so with the unit type of a row not in minutes |
| Reducer.RowKeys | index.php:106 | the key of every row, in row order |
| Reducer.BucketOf | index.php:107-122 | a bucket is labelled with its key and holds the sum of its rows' amounts and their repositories in row order |
| Reducer.Fresh | index.php:108-113 | a key's first bucket is labelled with its key and holds 0 minutes, a cost of value 0 and no repositories |
| Reducer.Credit | index.php:120-122 | a row adds its amount to the Minutes, exactly amount times price to the cost and its repository at the end, and keeps the label |
| Reducer.BucketCostValue | index.php:121 | a bucket's cost is exactly the sum of its rows' amount times price |
| Reducer.MatchingIn | index.php:106 | a bucket only collects rows of the kept rows, with its own key |
| Reducer.BucketOfPlaces | index.php:121 | a bucket's cost has no more decimals than the most precise price among its rows |
| Reducer.MatchingAbsent | index.php:107-114 | a key that no row has collects no rows |
| Reducer.MatchingListsRepository | index.php:122 | the repositories collected for a row's key include that row's repository |
| Reducer.ExpectedOtherKey | index.php:120-122 | a row leaves the buckets of other keys unchanged |
| Reducer.ExpectedUpdate | index.php:120-122 | the expected table after one more row of a known key credits that key's bucket |
| Reducer.ExpectedSnocOld | index.php:120-122 | the closure keeps the expected table on a row of a known key |
| Reducer.ExpectedOldEntry | index.php:120-122 | after a row of a known key the expected table keeps its length and that key's entry is the credited bucket (the other entries are ExpectedOtherKey's) |
| Reducer.ExpectedNewEntry | index.php:107-114 | the new entry of the expected table after a row of a new key |
| Reducer.ExpectedKeepsPrefix | index.php:107-114 | a row with a new key leaves every earlier bucket of the expected table as it was |
| Reducer.ExpectedAppend | index.php:107-114 | the expected table after a row of a new key is the old one plus a bucket holding exactly that row |
| Reducer.ExpectedSnocNew | index.php:107-122 | the closure keeps the expected table on a row of a new key |
| Reducer.ReduceByAllMinutes | index.php:104-126 | when every row is in minutes, `array_reduce` with the closure gives the expected table: one bucket per distinct key, in first-occurrence order, holding exactly the rows of that key |
| Reducer.ReduceByThrows | index.php:116-117 | the first row not in minutes makes the fold throw with its unit type, however many valid rows came before it |
| Reducer.FirstOther | index.php:116-117 | the first row not in minutes: it is not in minutes, and every row before it is |
| Reducer.ReduceByOkAllMinutes | index.php:116-117 | a fold that does not throw saw only rows in minutes |
| Reducer.ReduceByKeys | index.php:107-114 | a table's keys are distinct and labelled on their buckets, every row's key has a bucket, and the keys are in first-occurrence order |
| Reducer.ReduceByBuckets | index.php:120-122 | each bucket's Minutes, cost and repositories are those of exactly the rows of its key |
| Reducer.TotalMinutesUpdate | index.php:120 | replacing one bucket changes the table's total Minutes by the difference |
| Reducer.TotalMinutesInsert | index.php:120 | each row adds its amount to the table's total Minutes exactly once |
| Reducer.ReduceByTotalMinutes | index.php:120-122 | a table's Minutes add up to the amounts of all the kept rows |
| Precision.MaxFrom | index.php:214-218 | the `max` fold: at least its start and every element, and equal to one of them |
| Precision.DesiredPlaces | index.php:214-218 | the desired decimals: no row's price has more, some row's price has exactly that many (unless 0), and 0 without rows |
| Precision.PricePlacesCanonical | index.php:216 | the decimals counted on a cast price's `(string)` are its canonical decimals |
| Precision.DesiredPlacesBound | index.php:214-218 | no kept price has more decimals than desired |
| Precision.DecimalPlacesAppendDigits | index.php:252 | appending digits after a point adds exactly that many decimals |
| Precision.PadAsWritten | index.php:251-252 | the padding as written: appends `max(0, desired - current)` zeros and removes nothing, whether or not the string has a point |
| Precision.PadCostPlaces | index.php:251-252 | the padded cost has exactly the larger of its own and the desired decimals |
| Precision.PadCostAppends | index.php:251-252 | padding removes no character and appends only zeros, preceded by a point when the cost's string has none: `max(0, desired - current)` zeros after an existing point, otherwise a point and `desired` zeros (nothing for 0 desired decimals) |
| Precision.PadWholeReadsBack | index.php:251-252 | a whole cost, padded, reads as its digits followed by `desired` zeros |
| Precision.ParsePadded | index.php:251-252 | a decimal followed by zeros reads as the same digits at more decimals |
| Precision.PadPointedReadsBack | index.php:251-252 | a cost with a point, padded, reads as its digits followed by the zeros added |
| Precision.PadWholeCostReadsBack | index.php:251-252 | a cost `(string)` writes without a point, padded, reads back as the cost followed by zeros |
| Precision.PadPointedCostReadsBack | index.php:251-252 | a cost `(string)` writes with a point, padded, reads back as the cost followed by zeros |
| Precision.PadCostShifts | index.php:251-252 | the padded `(string)` of a cost reads back as the cost followed by the missing zeros |
| Precision.PadCostReadsBack | index.php:251-252 | the padded `(string)` of a cost reads back as that exact cost, at the larger of its own and the desired decimals |
| Precision.PadCostKeepsValue | index.php:251-252 | padding only changes the display: the padded cost reads back as the same value |
| Precision.OneDollar | index.php:121 | 125 minutes at $0.008 cost exactly $1 |
| Precision.RenderOneDollar | index.php:251 | `(string)` writes $1.000 as `1` |
| Precision.ReadThousand | index.php:252 | `1000` reads as a thousand |
| Precision.PadOneDollar | index.php:252 | padding `1` to three decimals gives `1000` as written and `1.000` as intended |
| Precision.PadAsWrittenMisreadsWholeCost | index.php:251-252 | a cost of exactly $1 at three desired decimals is shown as `1000`, which reads as a thousand dollars; the intended padding shows `1.000` |
| Report.Aggregate | index.php:220-241 | the four folds throw exactly when some row is not in minutes, with that row's unit type; otherwise they give the four expected tables, named and ordered Per Day, Per User, Per Workflow, Per Repository |
| Report.AggregateErr | index.php:220-241 | otherwise the first fold throws, with the unit type of the first row not in minutes |
| Report.FinalizeTable | index.php:244-253 | the finalised table has one row per bucket |
| Report.FinalizeTableAt | index.php:244-253 | the i-th finalised row is the i-th bucket in display form |
| Report.FinalizeAll | index.php:243-254 | the finalisation keeps the tables, one for one |
| Report.FinalizeAllAt | index.php:243-254 | the n-th finalised table is the n-th table, under its name, in display form |
| Report.FinalizeOne | index.php:245-252 | the body of the finalisation loop: repositories removed in Per Repository, otherwise deduplicated and joined with `", "`; the cost padded to the desired decimals |
| Report.FinalizeRows | index.php:244-253 | the inner `foreach` puts every bucket of a table in display form, in order |
| Report.Finalize | index.php:243-254 | the nested `foreach` puts every table in display form, in order, under its name |
| Report.FinalizeEntryFacts | index.php:245-252 | a finalised bucket: label and key agree, Minutes is its rows' amounts, the cost string has exactly the desired decimals and reads back as the exact sum of its rows' costs, Repositories is its rows' distinct repositories joined with `", "`, absent in Per Repository |
| Report.FinalizeEntryDisplay | index.php:245-252 | the display form keeps key, label and Minutes; its cost has the larger of its own and the desired decimals and reads back as the same amount; Repositories is absent exactly in Per Repository |
| Report.EntryListsRepository | index.php:249 | outside the per-repository table, a bucket's displayed Repositories string holds each of its repositories |
| Report.FinalizeListsRepository | index.php:220-249 | in the tables per day, per user and per workflow, the bucket of every row's key lists that row's repository |
| Report.ReportAt | index.php:243-254 | where each expected bucket lands in the finalised report |
| Report.ReportEntry | index.php:214-252 | with prices as cast from the file, every finalised cost has exactly the desired decimals and reads back as the exact cost of its rows |
| Report.ReportMinutes | index.php:221-241 | in each of the four tables, the Minutes add up to the minutes of all kept rows |
| Report.Analyze | index.php:138-141 | no upload is the distinct "nothing" outcome, and it is the only way to get it |
| Report.HandleFileUpload | index.php:138-256 | the handler, with early returns, the ingestion loop, the folds and the finalisation loop, ends with exactly the outcome Analyze states |
| Report.AnalyzeNotCsv | index.php:143-151 | a file without a declared type, or declared as anything but `text/csv`, is rejected with the corresponding message whatever it holds |
| Report.AnalyzeReachesCsv | index.php:153-175 | an openable CSV upload with a first line goes on to the header check |
| Report.AnalyzeMissingLabels | index.php:174-182 | a header lacking labels is rejected with `Malformed CSV file, missing header fields: ` and the missing labels joined with `", "`, before any row is read |
| Report.AnalyzeCsv | index.php:174-256 | the analysis rejects exactly a header lacking a label, is fatal exactly when a kept row is not in minutes, and otherwise gives four tables in name order |
| Report.AnalyzeRows | index.php:214-254 | on the kept rows: fatal exactly when one is not in minutes, otherwise the four finalised tables in name order |
| Report.AnalyzeSkipsOtherProducts | index.php:193-195 | inserting a line whose Product is not `Actions` anywhere among the data lines does not change the outcome |
| Report.AnalyzeOtherUnit | index.php:116-117 | a kept row in another unit than minutes ends the analysis with the error of the first such row and no tables |
| Report.AnalyzeSucceeds | index.php:184-256 | otherwise the outcome is the four expected tables, finalised to the desired decimals |

## Left out

- The HTML page, its date-range heading and the browser-side JavaScript table toggle and sort are
  presentation only.
- Output buffering and the `echo` of messages are left out. A rejection carries the message it would
  echo.
- `$_FILES` and `fopen` are I/O. An upload is modelled as its declared type and, when the file can be
  opened, its lines already split into cells.
- CSV tokenising (`fgetcsv`'s quoting and escaping) is a library call. Each line is a sequence of cells.
  A blank line, which `fgetcsv` reads as a single null cell, is a line whose cells are all empty.
- A cell the line does not have, which PHP 8 reads as null with an "Undefined array key" warning, is modelled as the empty
  string. Every later use treats both alike.
- PHP floats are not modelled. Prices and costs are exact decimals, so there is no rounding in sums,
  no rounding of `(string)` to PHP's `precision` of 14 significant digits and no exponent notation in
  `(string)`; those come from floating point.
- PHP's 64-bit integers are not modelled. `amount` and `Minutes` are unbounded, so neither the
  saturation of `(int)` at `PHP_INT_MAX` for a larger Quantity cell (index.php:200) nor the switch of a
  Minutes sum past `PHP_INT_MAX` to a rounded float (index.php:120) is captured.
- `ParseNat` and `ParseDecimal` do not model signs, leading whitespace or exponents in the `(int)` and
  `(float)` casts. Cells are assumed to be well-formed unsigned numbers, or to start with one. A
  Quantity is therefore never negative.
- The empty file: `fgetcsv` returns `false` and `array_flip(false)` raises PHP 8's TypeError. This is
  modelled as a fatal outcome with that message. The exact text of engine messages is PHP's, not this
  repository's.
- The uncaught `RuntimeException` of the reducer is a fatal outcome carrying its message. The page
  around it is left out.
- The finalisation loop updates the tables in place through `&$table` and `&$row` references. The
  model builds the finalised tables as new values, in the same order, so aliasing through the leftover
  references after the loop is not captured. Nothing in the handler uses those references.
- Report.FinalizeEntry: pads each cost with `Precision.PadCost`, the padding as evidently intended,
  and not with `Precision.PadAsWritten`, the code as written at index.php:251-252. The two differ only
  on a cost whose `(string)` has no point, where the code as written shows `1000` for $1 at three
  desired decimals. The Findings row logs that input; the finalised tables are modelled as intended so
  that their costs read back as the amounts they display.
- Report.FinalizeOne: the loop body uses the same intended padding as `Report.FinalizeEntry`.
- Report.HandleFileUpload: its finalisation loop uses the same intended padding, so its outcome
  differs from the code as written on whole-dollar costs, as the Findings row shows.
- The name of a bucket's key field, `$label` of `reduce_by_column` (`Day`, `Username`, `Workflow` or
  `Repository`, index.php:223-238), is a column heading of the page. A bucket keeps only the key's value,
  as `group`.
- `Precision.DesiredPlaces` is a function rather than a loop: `array_reduce` with a closure is a pure
  max-fold.

## Findings

| source | as written | input that shows it | evidently intended | confidence | as-written member | corrected member |
|---|---|---|---|---|---|---|
| index.php:251-252 | a cost whose `(string)` has no point gets zeros appended without a point | 125 minutes at $0.008 cost exactly $1, which `(string)` writes as `1`; with 3 desired decimals the cell shows `1000` | a point before the zeros, `1.000`, so the cell reads back as the same cost with the desired decimals | not executed | Precision.PadAsWritten, Precision.PadAsWrittenMisreadsWholeCost | Precision.PadCost, Precision.PadCostReadsBack, Precision.PadCostKeepsValue |

The rest of the model (`Report.FinalizeEntry`, `Report.Finalize`) uses the corrected padding.
