# ICMS ledger totals, modelled in Dafny

The program reads a semicolon-separated export of invoice items. It checks that the five
columns it needs are present: rate (`Alíquota de ICMS`), tax-situation code (`CST ICMS`),
operation code (`CFOP`), tax base (`Base de ICMS`) and tax amount (`Valor do ICMS`).

It then runs these stages:

1. It cleans the code and converts the rate.
2. It keeps only the rows with one of the rates 4, 10, 12, 17 or 25 % and one of the codes
   `1/00`, `1/10`, `1/20`, `1/51` or `1/90`.
3. It splits them into interstate operations (the operation code starts with `6`) and
   intrastate operations (it starts with `5`).
4. It repairs the Brazilian money text of both amounts.
5. It sums base and amount per rate in each bucket.
6. It renders the sums in Brazilian notation (`1.234,56`).

The project models that pipeline and proves what each stage guarantees.

## Modules

- `Text` (`text.dfy`) — the string operations the pipeline applies:
  - `str.strip()` over Latin-1 whitespace;
  - `str.replace(pat, "")`, which scans left to right without overlaps;
  - one-character `str.replace(a, b)`;
  - `str.startswith`.
- `Decimal` (`decimal.dfy`) — exact decimal numbers as text. It holds the small number
  grammar (optional sign, digits, optional `.` and digits) and the digit printers used by
  the formatter. Numbers are exact `real`s.
- `Locale` (`locale.dfy`) — the two number conventions of the export:
  - the rate conversion: every `,` becomes `.`, then `float()`, which ignores surrounding
    whitespace;
  - the money repair: every `.` is deleted, then every `,` becomes `.`, then it parses;
  - the Brazilian money formatter: half-even rounding to cents, `.` between thousands,
  `,` before the cents, and a `-` kept on a negative value.
- `Ledger` (`ledger.dfy`) — the pipeline as pure functions:
  - `Pipeline(header, rows)` returns an `Outcome`: `MissingColumns(names)`, `RateParseError`,
    `EmptyAfterFilter`, `EmptyAfterAggregation` or `Ok(interstate, intrastate)`.
  - Each stage is its own function, followed by the lemmas stating its guarantees.
- `LedgerRun` (`pipeline.dfy`) — the step-by-step procedure over the rows. Each stage is a
  method with a loop, proved equal to the `Ledger` function of its stage. The rows are
  normalised, filtered and split into two bucket sequences. Each bucket is repaired. The
  per-rate sums are kept in a rate → totals map plus an ascending list of the rates seen.
  The results are rendered. `Process` chains these methods and is proved equal to `Pipeline`.
- `LedgerSample` (`sample.dfy`) — one row traced through every stage.
- `Wrappers` (`wrappers.dfy`) — `Option`.

## How the model reads the input

- The file comes in as a header (the column names) and rows of cell texts. A cell past the
  end of a short row reads as empty. A column is found by its first occurrence in the header.
- An empty cell stands for pandas' missing value.
  - An empty rate is NaN. It converts without error and fails the rate whitelist, so the row
    is dropped rather than aborting the run.
  - An empty code or operation code matches nothing.
  - An empty amount does not parse, so its row leaves the bucket.
- `RateParseError` stands for the exception that line 34 raises and lines 87–90 report.
  The other outcomes stand for the message boxes of lines 24, 48 and 76, and for the results
  window.

## Model

| member | source | states |
|---|---|---|
| Ledger.Absent | main.py:22 | the names it returns are exactly the listed names absent from the header |
| Ledger.MissingExactly | main.py:21-23 | the missing list holds exactly the required names absent from the header, in the order of the required list; it is empty exactly when every required column is present |
| Ledger.AbsentInOrder | main.py:22 | the comprehension keeps the order of the list it filters |
| Ledger.MissingStops | main.py:21-25 | the run reports missing columns exactly when a required name is absent; it then reports that list whatever the rows hold, so no row is looked at |
| LedgerRun.MissingColumnsOf | main.py:21-22 | the loop over the required names builds exactly the missing list |
| Text.TrimStartSpec | main.py:28 | `lstrip` keeps a suffix and removes exactly the leading whitespace |
| Text.TrimEndSpec | main.py:28 | `rstrip` keeps a prefix and removes exactly the trailing whitespace |
| Text.StripSpec | main.py:28 | `strip` keeps one contiguous slice of its input with only whitespace before and after it, and none at either end of the slice; it changes nothing that is already stripped and turns blank text into the empty text |
| Text.StripIdempotent | main.py:43 | stripping twice strips nothing more |
| Text.StripPadded | main.py:34 | a text without surrounding whitespace, padded with whitespace on either side, strips back to itself |
| Text.RemoveAll | main.py:28 | deleting a pattern never lengthens the text and never adds a character; a text without the pattern is unchanged; an occurrence at the front shortens the text by at least the pattern's length |
| Text.RemoveChar | main.py:57 | deleting a character keeps exactly the other characters; a text without it is unchanged |
| Text.RemoveCharCounts | main.py:57 | deleting a character removes every copy of it and keeps every other character exactly as often as it occurs |
| Text.ReplaceChar | main.py:34 | one-character replacement keeps the length and swaps exactly the positions holding the old character |
| Ledger.CleanCst | main.py:28 | a cleaned code contains no `"` and has no surrounding whitespace |
| Ledger.CleanCstWrapped | main.py:28 | for every value without a `"` of its own and not ending in `=`, the spreadsheet form `="value"` cleans to the value, stripped |
| Ledger.CleanCstKeepsClean | main.py:28 | cleaning a code without `"` and without surrounding whitespace returns it unchanged |
| Ledger.CleanCstIdempotent | main.py:28 | cleaning twice equals cleaning once |
| Ledger.CleanCstQuoted | main.py:28 | the spreadsheet form `="1/00"` cleans to `1/00` |
| Ledger.SecondStripIsNoop | main.py:43 | the second strip after cleaning changes nothing |
| Decimal.ParseDecimal | main.py:34 | a number parses only from non-empty text; a leading `-` gives a value of at most zero, anything else a value of at least zero |
| Decimal.ParseDecimalSyntax | main.py:34 | the parser accepts a text exactly when it is an optional `-` or `+` followed by digits, or by digits around one `.`, with at least one digit |
| Decimal.ParseSignedWhole | main.py:34 | an optional sign and digits read as the digits' value, negated after a `-` |
| Decimal.ParseSignedPoint | main.py:34 | an optional sign, digits, `.` and digits read as the number they spell, negated after a `-` |
| Decimal.ParseDecimalText | main.py:34 | sign, digits, `.` and digits read back as exactly the number they spell |
| Decimal.ParseDigits | main.py:34 | a digit string reads as its value |
| Decimal.ParseDecimalRejectsComma | main.py:34 | text holding a `,` never parses, which is why the comma is replaced before conversion |
| Locale.ParseRate | main.py:34 | a rate cell is missing (NaN) exactly when it is empty; it converts to a number exactly when it is not empty and its text, commas turned into points and whitespace stripped, is a number text |
| Locale.RateMalformedExactly | main.py:34 | a rate cell fails to convert exactly when it is not empty and its text, commas turned into points and whitespace stripped, is not a number text |
| Locale.RatePaddedWhole | main.py:34 | a signed whole rate with whitespace around it (` -5 `, `+17`) converts to its value |
| Locale.RatePadded | main.py:34 | a signed rate with a decimal comma and whitespace around it (` 17,5 `) converts to its value |
| Locale.RateCommasReplaced | main.py:34 | the rate conversion leaves no `,`: each one becomes `.` in its place and every other character stays |
| Locale.RateWithComma | main.py:34 | a rate written with a decimal comma (`17,5`) converts to its value |
| Locale.RateWithPoint | main.py:34 | a rate written with a decimal point converts to the same value |
| Locale.RateWhole | main.py:34 | a whole rate (`17`) converts to its value |
| Locale.PointInRate | main.py:34 | `17.5` as a rate is 17.5 |
| Locale.MoneyTextIsNoRate | main.py:34 | a rate cell in money notation (`1.234,56`) does not convert |
| Ledger.Normalize | main.py:28-34 | a converted row's code has no `"` and no surrounding whitespace, and its rate is missing exactly when the rate cell is empty |
| Ledger.NormalizedAt | main.py:28-34 | row `k` of the converted table is row `k` of the file, with its code cleaned and its rate converted |
| LedgerRun.NormalizeRows | main.py:28-34 | the loop reports failure exactly when some row's rate does not convert; otherwise it returns every row converted |
| Ledger.RateErrorExactly | main.py:34 | with every column present, the run fails on the rates exactly when some row's rate cell does not convert; one bad rate fails the whole run |
| Ledger.MoneyStyleRateAborts | main.py:34 | one rate cell written as `1.234,56` makes the whole run fail |
| Ledger.ByRate | main.py:37-38 | a row whose rate is a number in the whitelist is kept as many times as it occurs, any other row not at all |
| Ledger.ByCst | main.py:41-44 | a row whose stripped code is in the whitelist is kept as many times as it occurs, any other row not at all |
| Ledger.Kept | main.py:37-44 | a row is kept exactly when both its rate and its code are listed |
| Ledger.KeptExactly | main.py:37-44 | a row whose rate is one of 4, 10, 12, 17, 25 and whose code is one of `1/00`, `1/10`, `1/20`, `1/51`, `1/90` passes both filters as many times as it occurs in the file; any other row not at all |
| Ledger.KeptHaveRates | main.py:37-38 | every surviving row carries a number rate from the whitelist |
| Ledger.KeptEmpty | main.py:47 | nothing survives exactly when no row has both a listed rate and a listed code |
| Ledger.FilterEmptyExactly | main.py:47-49 | once the rates convert, the run reports an empty filter result exactly when no converted row has both a listed rate and a listed code |
| LedgerRun.FilterRows | main.py:37-44 | the loop keeps exactly the rows both filters keep, in order |
| Ledger.Select | main.py:53-54 | a bucket holds exactly the rows whose operation code starts with its character |
| Ledger.Neither | main.py:52-54 | the rows in neither bucket are exactly those whose operation code starts with neither `6` nor `5` |
| Ledger.SplitPartition | main.py:52-54 | no row is in both buckets; the two buckets and the remainder together are the filtered rows as a multiset, with counts adding up |
| LedgerRun.SplitRows | main.py:52-54 | the loop builds exactly the interstate and the intrastate bucket |
| Locale.ParseMoney | main.py:57-59 | parsed money needs non-empty text once the thousands separators are gone |
| Locale.MoneyFailsExactly | main.py:57-59 | a money cell becomes NaN exactly when its text, dots deleted and comma turned into a point, is not a number text |
| Locale.MoneySeparatorsSwapped | main.py:57 | the repair leaves neither `.` separators nor `,`; the text parsed has a `.` exactly where the cell, without its separators, had a `,` |
| Locale.MoneyWithComma | main.py:57-59 | `digits,digits` repairs to its value |
| Locale.MoneyWithPoint | main.py:57-59 | in a money cell a `.` is a thousands separator: `digits.digits` repairs to the integer of all its digits |
| Locale.ConventionsAgreeOnComma | main.py:34 | on `digits,digits` the rate conversion and the money repair give the same number |
| Locale.PointInMoney | main.py:57-59 | `17.5` as money is 175 |
| Locale.RepairSample | main.py:57-59 | `1.234,56` repairs to 1234.56 |
| Ledger.Repair | main.py:57-61 | each item occurs exactly once for every row of the bucket that yields it (a number rate and both amounts parsing to the item's values); there are never more items than rows |
| Ledger.RepairKeepsCopies | main.py:57-61 | every copy of a repairable row yields its own item: identical rows are not merged |
| Ledger.RepairExactly | main.py:57-61 | a bucket's items are exactly the rows whose rate is a number and whose base and amount both parse, carrying that rate and those two values; other rows just leave the bucket |
| Ledger.RepairKeepsRates | main.py:57-61 | when every row of a bucket has a whitelisted rate, so does every item repaired from it |
| LedgerRun.RepairBucket | main.py:57-61 | the loop builds exactly the repaired bucket |
| Ledger.InsertSortedIncreasing | main.py:8 | inserting a rate keeps the key list strictly ascending |
| Ledger.KeysSpec | main.py:8 | the group keys are strictly ascending and are exactly the rates present |
| Ledger.GroupSums | main.py:7-11 | the grouped rows are ascending by rate, each at a rate of some item and carrying the sums of base and amount over exactly the items at its rate; there is a row exactly when there is an item |
| Ledger.GroupSumsSpec | main.py:7-11 | the grouped result has one row per distinct rate present, ascending; each row carries the sums of base and amount over exactly the items at its rate; it is empty exactly when the bucket is |
| Ledger.SumAbsent | main.py:8-10 | a rate that does not occur sums to zero |
| Ledger.GroupSumsConserve | main.py:8-10 | the grouped totals add up to the total over the whole bucket, for base and for amount |
| Ledger.GroupRates | main.py:8 | when every item is at a whitelisted rate, so is every grouped row |
| Ledger.BucketTotals | main.py:53-72 | the totals of a bucket are at whitelisted rates, strictly ascending |
| LedgerRun.SumByRate | main.py:7-11 | the loop over the rate → totals map and the ascending list of rates seen yields exactly the grouped totals |
| Ledger.AggregationEmptyExactly | main.py:75-77 | past the filters the run cannot fail: it ends with results or with the empty-aggregation outcome, the latter exactly when both repaired buckets are empty |
| Decimal.IntText | main.py:95 | integer digits have no leading zero |
| Decimal.IntTextValue | main.py:95 | printed integer digits read back as the number |
| Decimal.PaddedTextValue | main.py:95 | zero-padded digits read back as the number |
| Locale.RoundHalfEven | main.py:95 | rounding stays within one half of the value, leaves whole numbers alone, and rounds an exact half to the even neighbour |
| Locale.FormatMoney | main.py:94-95 | a rendered amount is an optional `-`, digits grouped in threes by `.`, a `,`, and exactly two digits; it starts with `-` exactly when the value is negative, even when it rounds to zero |
| Locale.FormatDigits | main.py:95 | with its thousands dots deleted, a rendered amount is the sign, the integer part of the value rounded to cents printed without leading zeros, `,`, and the two cents digits |
| Locale.GroupedValue | main.py:95 | the grouped digits, with their `.`s removed, are exactly the printed integer, without leading zeros, and read back as the number |
| Locale.ParseFormatCents | main.py:95 | rendering any whole number of cents and repairing the text as on line 57 gives back the same amount |
| Locale.FormatSample | main.py:95 | 1234.56 renders as `1.234,56` |
| Ledger.Render | main.py:80-83 | one line per total, each keeping its total's rate, with both amounts in the money shape |
| Ledger.FormatSpec | main.py:80-83 | each rendered amount has the money shape; a whole number of cents survives rendering and repair |
| Ledger.RenderSpec | main.py:80-83 | rendering keeps one line per total with its rate; both amounts have the money shape and read back when they are whole cents |
| Ledger.LinesSpec | main.py:80-83 | ascending totals at listed rates render as well-formed lines |
| LedgerRun.RenderTotals | main.py:80-83 | the loop renders exactly those lines |
| Ledger.Pipeline | main.py:18-83 | the run stops at the column check exactly when a required column is absent, naming exactly the absent ones; a successful run shows a line in at least one bucket |
| Ledger.PipelineOk | main.py:52-83 | a successful run shows, per bucket, one line per rate, ascending, at listed rates, with amounts in money shape |
| Ledger.WhitelistedOk | main.py:52-83 | the guarantee of a successful run, starting from the filtered rows |
| LedgerRun.Process | main.py:18-83 | the staged procedure returns exactly the outcome of the pipeline function |
| LedgerSample.SampleRun | main.py:18-83 | a file with one interstate row at 17 % (code `="1/00"`, base `1.234,56`, amount `209,88`) shows exactly one interstate line (17, `1.234,56`, `209,88`) and no intrastate line |

## Left out

- The Tkinter interface (lines 97–201) is not modelled: the file dialog, the message boxes,
  the results window and the CSV export at line 154. Each outcome of `Pipeline` names the box
  or window the program would show.
- The debug print at line 31 has no effect on the result.
- Reading the file (line 18) is not modelled: Latin-1 decoding, splitting on `;`, and skipping
  malformed lines. The model starts from a header and rows of cell texts.
- pandas renames duplicate column names (`X.1`); the model uses the first column with a name.
- pandas reads many texts (`NA`, `null`, `nan`, …) as missing values. In the model only the
  empty cell is missing.
- pandas infers column types. A column of plain numbers becomes numeric, and then the
  `astype(str)` of lines 52 and 57 works on the number's printed form, not on the original cell
  text. On line 52, an operation code read as the integer `6102` from the cell `06102` goes to the
  interstate bucket; the model routes by the cell text, which puts it in neither bucket. On line
  57 the printed number is repaired instead of the cell. The model always uses the cell text. The `.str` accessor raising on a non-text column and NaN
  printing as `nan` are not modelled either.
- Binary floating point is not modelled: rates and money are exact reals, the whitelists are
  compared exactly, and the sums have no rounding error.
- Locale.RoundHalfEven: rounds the exact value. Python formats the nearest binary double,
  which can round a tie the other way.
- Only a small number grammar is modelled for `float()` and `pd.to_numeric`: sign, digits and
  an optional fraction. Exponents, `inf`, `nan` and digit underscores are not.
- Text.RemoveAll: the contract bounds the result (no longer than the text, no new character,
  unchanged without the pattern, shorter after a leading occurrence) but does not state the
  left-to-right split into pieces; the exact result is the scan in its definition.
- Locale.ParseMoney: does not skip surrounding whitespace the way `pd.to_numeric` does.
- Locale.ParseFormatCents: the render-then-repair round trip is stated for whole numbers of
  cents only, because other values are rounded by the formatter.
- Ledger.FormatSpec: the same whole-cents restriction.
- Ledger.RenderSpec: the same whole-cents restriction.
- Ledger.Repairable: also requires the rate to be a number. At the repair stage every row
  already has one, so this changes nothing on the rows the pipeline passes in.
