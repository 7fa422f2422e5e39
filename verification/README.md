# load_data: encoding fallback and header-row detection

This project models `load_data` from the bank-reconciliation tool (brs-tool).
`load_data` reads an uploaded ledger or bank statement and returns a table
whose column names come from the row that really holds them. It works in
three steps:

1. **Encoding fallback.** It calls `read_csv` with `utf-8`, then `ISO-8859-1`,
   then `cp1252`, and keeps the first table that parses. A
   `UnicodeDecodeError` or `ParserError` moves on to the next encoding. Any
   other exception is not caught and leaves the function. When all three
   reads are rejected, `read_excel` is tried. If that fails as well, an error
   is shown and `None` is returned.
2. **Header-row search.** It scans the first-pass data rows from the top. It
   stops at the first row where some cell, lower-cased, contains `"date"` as
   a substring. If no row qualifies, the index stays `-1`.
3. **Re-read.** If a row was found at data index `h`, the file is read again
   as CSV with `header=h+1`. The `+1` is there because file line 0 already
   became the first pass's column names. Here, as everywhere in this model,
   line N means line N not counting blank lines, which the CSV reader
   skips. The re-read uses the encoding the loop variable `enc` was left
   holding. If no row was found, the first-pass
   table is returned unchanged. If the re-read raises, an error is shown and
   `None` is returned.

Files:

- `cell_text.dfy` (module `CellText`): lower-casing, the substring test and
  the per-row test `any("date" in s for s in row_str)`.
- `loader.dfy` (module `Loader`): what the parsers do with one upload (the
  `Upload` value), the three steps as imperative methods (`TryEncodings`,
  `FindHeader`, `LoadData`), and the functions they are proved against
  (`StopAt`, `FirstPass`, `HeaderFrom`, `Load`).
- `load_properties.dfy` (module `LoadProperties`): lemmas about those
  functions.

The parsers are not modelled. An `Upload` gives, for each encoding, what the
first `read_csv` would do: `Parsed(rows)`, `Rejected` for a caught decoding
or parsing error, or `Raised` for any other exception. It also gives the
`read_excel` table or `None`, and the second `read_csv` result for each
encoding and header line (`None` when it raises). The two ways of returning
`None` are kept apart in the result, as `NotRead` and `ReparseFailed`, and
an exception that escapes is kept as `Uncaught`.

Some consequences of the code as it is written:

- The only keyword is `"date"`.
- When no row qualifies, the first-pass table is returned.
- `read_excel` is tried after the three encodings, whatever the file is
  called.
- After an Excel read, a found header leads to a CSV re-read with `cp1252`.
  This is the value the loop variable is left with, not an encoding that
  was ever shown to work.
- The first-pass column names (file line 0) are never scanned. A data row
  whose text merely contains "date", such as a "Mandate" narration, is taken
  as the header (`CellText.SubstringNotWord`).

## Model

| member | source | states |
|---|---|---|
| CellText.LowerChar | app.py:31 | a capital becomes the lower-case letter at the same place in the alphabet; every other character is unchanged; the result is never an ASCII capital |
| CellText.RowMentionsDate | app.py:32 | the short-circuiting `any` over the cells is true exactly when some cell, lower-cased, contains "date" |
| CellText.MentionsDateIgnoresCase | app.py:31-32 | a cell qualifies exactly when some four consecutive characters are `d`, `a`, `t`, `e`, each in either case |
| CellText.MentionsDateOfLowered | app.py:31-32 | lower-casing a cell before the test does not change whether it qualifies |
| CellText.NoLetterDNoMention | app.py:32 | a cell with no `d` or `D` never qualifies |
| CellText.ValueDateQualifies | app.py:31-32 | the label "Value DATE" qualifies, because it is lower-cased before the test |
| CellText.SubstringNotWord | app.py:32 | the narration "NACH Mandate" qualifies: the test matches a substring, not a word |
| Loader.StopAt | app.py:9-15 | the loop stops on the first encoding whose read is not a caught error; every earlier one was rejected; it ends on the last encoding when all are rejected |
| Loader.TryEncodings | app.py:4-24 | step 1 yields `FirstPass`; the encodings handed to `read_csv` are exactly the listed ones up to the stopping one; `read_excel` is called exactly when all three CSV reads were rejected; `enc` is always set, so the `'utf-8'` default of line 40 is never used |
| Loader.HeaderFrom | app.py:28-34 | the result is -1 exactly when no row qualifies; otherwise it is a qualifying row and no earlier row qualifies |
| Loader.FindHeader | app.py:28-34 | the scan returns -1 exactly when no data row qualifies; otherwise it returns the least qualifying row, equal to `HeaderFrom` |
| Loader.LoadData | app.py:1-50 | the whole function yields `Load`, whose properties are the lemmas below |
| LoadProperties.CsvReadIsFirstSuccess | app.py:9-15 | the first-pass table comes from encoding number k exactly when that read parses and every encoding before it was rejected |
| LoadProperties.LaterEncodingsNotTried | app.py:9-15 | the loop never goes past an encoding whose read was not rejected |
| LoadProperties.ExcelOnlyAfterEveryCsvRejected | app.py:18-24 | the Excel table is used exactly when all CSV reads were rejected and the Excel read succeeds; nothing is read exactly when all CSV reads were rejected and the Excel read fails |
| LoadProperties.EscapedOnlyFromRaisingEncoding | app.py:10-15 | an uncaught exception leaves the function at encoding k exactly when that read raised it and every earlier one was rejected |
| LoadProperties.NotReadIffNothingParses | app.py:18-24 | the function returns `None` before any header scan exactly when all CSV reads and the Excel read fail |
| LoadProperties.HeaderLineIsFirstQualifyingRowPlusOne | app.py:28-43 | with a header, the requested header line is the least qualifying data row plus one, so it is at least 1, and the returned table is the one the re-read produced |
| LoadProperties.UncaughtIffRaised | app.py:9-15 | the function ends with an uncaught exception at encoding k exactly when that read raised it and every earlier one was rejected |
| LoadProperties.FoundHeaderIsReread | app.py:28-47 | when something was read, a row qualifies and the re-read with the loop's encoding and the least qualifying row plus one succeeds, its table is returned |
| LoadProperties.UnchangedIffNoQualifyingRow | app.py:42-47 | the first-pass table is returned unchanged exactly when something was read and no data row qualifies |
| LoadProperties.RereadUsesLoopEncoding | app.py:37-43 | the re-read uses the encoding whose first read parsed, or `cp1252` when the first-pass table came from the Excel reader |
| LoadProperties.ReparseFailedIffRereadRaises | app.py:37-50 | `None` after a found header exactly when the re-read with the loop's encoding and header line raises |
| LoadProperties.BuriedHeaderIsFound | app.py:26-43 | for a UTF-8 export whose 7th line holds the column names under six lines of account details, the file is re-read with header line 6; the first-pass table is the one the reader gives when line 0 has four fields, with short rows padded with `"nan"` |

## Left out

- The parsers (`read_csv`, `read_excel`) and text decoding: they are library calls, so their outcomes are inputs (`Upload`). Line numbers in this model, and the `header=` argument, count lines as the CSV reader does: blank lines are skipped and not counted.
- `file.seek(0)` before each read: stream positioning only; each read in the model sees the whole file.
- The `st.error` messages and the `file_type` argument, which appears only in them: UI output. The model records only which error outcome happened.
- `astype(str)` conversion of cells, such as a missing value becoming `"nan"`: cells are text already.
- The row labels from `iterrows`: the model takes them to be positions 0, 1, 2, …. Both readers give that by default, except when the first data line of a CSV has more fields than line 0. Then `read_csv` makes that many leading columns the row labels. Later lines that are no wider are padded, and wider ones are a `ParserError`. The label columns are not scanned, and `header_idx` is a label (a tuple when there are several), so the re-read asks for another line or raises.
- CellText.LowerChar: lower-cases only ASCII capitals and leaves other characters alone, unlike Python's full Unicode `str.lower`. No other character lower-cases to one of `d`, `a`, `t`, `e`, so the header test gives the same answer.
- The reconciliation engine (column roles, amount and date parsing, matching): it is not part of the modelled file.
