# LA City citations ETL: the row-level transform

The pipeline fetches parking-citation records from the LA open-data portal.
It drops the records that have no violation description and renumbers the
survivors from 0. It rewrites `issue_date` to its date part and `issue_time`
from military time ("930", "1730") to "HH:MM". It then reprojects the
coordinates and uploads the table as CSV to blob storage. This project
models the transform step in Dafny and proves what it does:

- `wrappers.dfy` (`Wrappers`): `Result` and `Outcome`.
- `py_slice.dfy` (`PySlice`): Python's slice `s[start:stop]`. A negative bound
  counts from the end, and every bound is clamped into `[0, len(s)]`. Both
  rewrites are written with these slices, so short and odd-length inputs
  behave exactly as they do in Python.
- `time_fields.dfy` (`TimeFields`): `parse_time` and the `datetime[0:10]`
  truncation. For `parse_time`: round trips, suffix, length and clock-value
  facts. For the truncation: prefix, length and idempotence.
- `citations.dfy` (`Citations`): a row, the null filter together with
  `reset_index(drop=True)`, the column reads and writes, and the whole
  transform as a specification function with its lemmas.
- `etl.dfy` (`Etl`): the mutable data frame as a class `CitationFrame`. Its
  methods are the three in-place steps of `main`. `TransformCitations` runs
  them in order and is proved equal to the specification.

A row holds a `violationDescription` cell, then `issueDate`, `issueTime`,
`latitude` and `longitude` as strings (the open-data service delivers cells
as strings), and a map with every other column. The description cell has
three states. `Absent` means the record has no such key. `Null` means the key
is there with a null value. `Text(s)` means it holds a text. A table is a `seq<Row>`, and
a row's position in it is its data-frame index.

The code has one failure path in this step that is easy to miss.
`pd.DataFrame.from_records` takes its columns from the keys of the records.
So when no fetched record has a `violation_description` key (an empty fetch
included), the frame has no such column. Then `df.violation_description` on
line 43 raises and the run stops. The model follows the code: the transform
returns `Err(MissingColumn("violation_description"))` exactly in that case.
When some record has the key but every value is null, the column exists,
and the filter gives an empty table with no error.

## Model

| member | source | states |
|---|---|---|
| `PySlice.Slice` | blobstorage/blob-etl.py:24-27 | `s[start:stop]` with Python's negative and clamped bounds never fails and is no longer than `s` |
| `PySlice.SliceFrom` | blobstorage/blob-etl.py:24-27 | `s[start:]` never fails and is no longer than `s` |
| `PySlice.PrefixSlice` | blobstorage/blob-etl.py:45 | `s[0:k]` is the first min(k, len(s)) elements |
| `PySlice.DropLastSlice` | blobstorage/blob-etl.py:27 | `s[0:-k]` drops the last k elements, and is empty when the string has k or fewer |
| `PySlice.LastSlice` | blobstorage/blob-etl.py:24-27 | `s[-k:]` is the last min(k, len(s)) elements |
| `PySlice.SplitAtEnd` | blobstorage/blob-etl.py:27 | `s[0:-k] + s[-k:] == s` for every length |
| `TimeFields.ParseTime` | blobstorage/blob-etl.py:22-27 | the output is 5 long for a 3-character input and one longer than the input otherwise |
| `TimeFields.ParseTimeThreeChars` | blobstorage/blob-etl.py:24-25 | a 3-character time becomes `"0" + t[0] + ":" + t[1..3]`, 5 characters |
| `TimeFields.ParseTimeFourChars` | blobstorage/blob-etl.py:26-27 | a 4-character time becomes `t[..2] + ":" + t[2..]`, 5 characters |
| `TimeFields.ParseTimeFiveCharsIff` | blobstorage/blob-etl.py:22-27 | the output has 5 characters if and only if the input has 3 or 4: other lengths come out malformed |
| `TimeFields.ParseTimeRoundTrip` | blobstorage/blob-etl.py:26-27 | for length other than 3, the output has a ':' at max(0, len-2), and deleting it gives the input back |
| `TimeFields.ParseTimePaddedRoundTrip` | blobstorage/blob-etl.py:24-25 | for length 3, the output starts with '0' and has ':' at 2, and deleting both gives the input back |
| `TimeFields.ParseTimeSuffix` | blobstorage/blob-etl.py:24-27 | every output ends with ':' followed by the last min(2, len) characters of the input |
| `TimeFields.ParseTimeClockValue` | blobstorage/blob-etl.py:22-27 | on 3 or 4 digits the output is two digits, ':', two digits; the hour part spells the input's number divided by 100 and the minute part the remainder |
| `TimeFields.ParseTimeExamples` | blobstorage/blob-etl.py:22-27 | "930" becomes "09:30", "1730" becomes "17:30", "100" becomes "01:00" |
| `TimeFields.TruncateDate` | blobstorage/blob-etl.py:45 | the result is a prefix of the input of length min(10, len) |
| `TimeFields.TruncateDateIdempotent` | blobstorage/blob-etl.py:45 | truncating twice equals truncating once |
| `TimeFields.TruncateDateExample` | blobstorage/blob-etl.py:45 | "2020-08-15T00:00:00.000" becomes "2020-08-15" |
| `Citations.Described` | blobstorage/blob-etl.py:43 | `pd.notna` holds only of a text, so a described row always has the key |
| `Citations.HasDescriptionColumn` | blobstorage/blob-etl.py:18 | the column test deciding whether line 43 raises: the column exists when some record has the key (even null), so any described row implies it |
| `Citations.KeepDescribed` | blobstorage/blob-etl.py:43 | the filter keeps no more rows than it gets, every kept row has a description, and every kept row comes from the input |
| `Citations.KeptPositions` | blobstorage/blob-etl.py:43 | the original index of each kept row lies inside the input, and these indices strictly increase |
| `Citations.KeepDescribedPositions` | blobstorage/blob-etl.py:43 | row k after re-indexing is input row KeptPositions[k] |
| `Citations.KeptPositionsExact` | blobstorage/blob-etl.py:43 | an index is kept if and only if the input row there has a description |
| `Citations.KeepDescribedReindexes` | blobstorage/blob-etl.py:43 | the output is the in-order subsequence of the described rows, numbered contiguously from 0 |
| `Citations.KeepDescribedAppend` | blobstorage/blob-etl.py:43 | filtering a concatenation is concatenating the filtered parts |
| `Citations.DescribedPositionsSnoc` | blobstorage/blob-etl.py:43 | appending a row adds its index to the described positions exactly when it is described |
| `Citations.KeepDescribedCount` | blobstorage/blob-etl.py:43 | the output row count equals the number of input rows with a description |
| `Citations.KeepDescribedAllDescribed` | blobstorage/blob-etl.py:43 | a table whose rows all have descriptions passes the filter unchanged |
| `Citations.KeepDescribedIdempotent` | blobstorage/blob-etl.py:43 | filtering an already filtered table leaves it unchanged |
| `Citations.KeepDescribedNonEmptyIff` | blobstorage/blob-etl.py:43 | the filter keeps some row if and only if some input row has a description |
| `Citations.WithIssueDates` | blobstorage/blob-etl.py:45 | column assignment: row k takes cell k of the new column, and every other field of the row stays |
| `Citations.WithIssueTimes` | blobstorage/blob-etl.py:46 | column assignment: row k takes cell k of the new column, and every other field of the row stays |
| `Citations.TruncatedDates` | blobstorage/blob-etl.py:45 | the date comprehension yields one cell per row |
| `Citations.FormattedTimes` | blobstorage/blob-etl.py:46 | the time comprehension yields one cell per row |
| `Citations.TransformTable` | blobstorage/blob-etl.py:43-46 | the transform fails, with the missing-column error, if and only if no record has the description key; on success it has no more rows than the input, and every row has a description |
| `Citations.TransformTableSpec` | blobstorage/blob-etl.py:43-46 | the transform fails (missing column) if and only if no record has the description key; otherwise it keeps one row per described row (possibly none), and row k is original row KeptPositions[k] with only its date truncated and its time reformatted |
| `Citations.TransformTableAllNull` | blobstorage/blob-etl.py:43 | a non-empty table whose descriptions are all null gives an empty table, not an error |
| `Citations.TransformTableClockTimes` | blobstorage/blob-etl.py:46 | a kept row whose time has 3 or 4 digits comes out with a time of the form "HH:MM" |
| `Citations.TransformTableScenario` | blobstorage/blob-etl.py:43-46 | of three rows, one without a description (absent or null), two come out, with dates and times reformatted in order |
| `Etl.CitationFrame.FromRecords` | blobstorage/blob-etl.py:18 | the frame holds the fetched records in order |
| `Etl.CitationFrame.DropUndescribed` | blobstorage/blob-etl.py:43 | the step passes if and only if the description column exists, and the frame becomes the filtered, re-indexed table; on failure the frame is unchanged |
| `Etl.CitationFrame.TruncateIssueDates` | blobstorage/blob-etl.py:45 | the loop builds the truncated date column, and the frame is its old rows with that column assigned |
| `Etl.CitationFrame.ReformatIssueTimes` | blobstorage/blob-etl.py:46 | the loop builds the reformatted time column, and the frame is its old rows with that column assigned |
| `Etl.TransformCitations` | blobstorage/blob-etl.py:42-46 | running the steps on the frame equals the specification; it fails if and only if there is no description column; otherwise it keeps one described output row per described record, rewritten only in date and time |

## Left out

- `get_results` (blobstorage/blob-etl.py:11-19): a network query whose `where` filter and 50,000-row limit run on the server. The transform takes the fetched records as a parameter. Of `get_results`, only `from_records` (line 18) is kept: its rule that the columns are the keys of the records is `Citations.HasDescriptionColumn`.
- `convert_coord` and the latitude/longitude writes (blobstorage/blob-etl.py:30-33, 48-50): floating-point reprojection through an external geodesy library. The coordinates pass through unchanged.
- `load_dotenv` and `os.getenv` (blobstorage/blob-etl.py:37-38): environment and configuration input.
- The blob container creation and upload (blobstorage/blob-etl.py:53-61): cloud I/O.
- `df.to_csv` (blobstorage/blob-etl.py:60): the data-frame library's own CSV formatting.
- The module-level `main()` call (blobstorage/blob-etl.py:64): process entry.
- A missing `issue_date` or `issue_time` cell. Such a cell would be a float NaN in the frame, and slicing it or taking its `len` raises. The model takes both cells to be present strings. For `issue_date`, the server-side `issue_date >=` filter guarantees this.
- Citations.TruncatedDates: the contract states only that the column has one cell per row. The cell values are stated by `Citations.TransformTableSpec`.
- Citations.FormattedTimes: the contract states only that the column has one cell per row. The cell values are stated by `Citations.TransformTableSpec`.
- Character handling: strings are sequences of Unicode code points, as Python's `len` and slices count them.
