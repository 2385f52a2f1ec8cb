# dataframe.py in Dafny

A model of `dataframe.py`: a small column-oriented table (`DataFrame`) with
row access, filtering, column selection, grouping and aggregation, and
`read_csv`, which splits each line of a file with a regular expression,
infers an int, float or text value for every field, and fills the columns.

The project has five modules:

- `Wrappers` (`wrappers.dfy`): `Option` and `Result`. Every Python exception
  of the core becomes an `Err` result.
- `Seqs` (`seqs.dfy`): sequence facts used throughout. These are order-keeping
  deduplication (`Dedup`, which is how a Python dict keeps its keys),
  `Distinct`, `Map` and `TrueIndices`.
- `Values` (`values.dfy`): the cell type `Value = Int | Float | Text` and
  `convert_value`. It includes Python's `str.strip()`, and what `int()` and
  `float()` accept, written out character by character.
- `Tokenizer` (`tokenizer.dfy`): the field pattern and `finditer` written as a
  left-to-right scanner (`MatchAt`, `Scan`). It also covers the per-field
  clean-up (`""` → `"`, then `strip()`) and the method `SplitLine` that
  builds a line's values. Round-trip lemmas write fields out as a line
  (`Join` over `RawField`, unquoted or quoted) and read them back.
- `Frames` (`frames.dfy`): the table and its operations. The source never
  changes a table after `__init__`; every operation builds a new dict and
  wraps it. So a table is a datatype value: its keys in insertion order,
  the map, and `num_rows`. `filter` and `group_by` are methods with the
  source's loops, each proved equal to a specification function
  (`SubFrame(t, Kept(..))`, `GroupByResult`).
- `Csv` (`csv.dfy`): the `read_csv` line loop as the method `ReadCsv`. It is
  proved equal to `ReadCsvSpec`, the fold `ReadState` over the lines, and
  lemmas say what that result is in terms of the lines.

Column names are values too: the header line goes through `convert_value`,
so a header `1` names the column `Int(1)`.

### Behaviour of the code worth knowing

- Every line gives one more, empty, field than its commas suggest. After a
  match reaches the end of the line, `finditer` (Python 3.7 and later) also
  reports the empty match at the end. So `a,b` has the three fields `a`,
  `b` and the empty text, and the header `a,b` makes a third column named
  `Text("")`. The one exception is a line that ends in a comma: it gets no
  extra field, since the match after that comma is already the empty one at
  the end. `Tokenizer.FieldsPlainCount` states the count.
- Only line 0 can be the header. A blank first line followed by a non-blank
  line raises `UnboundLocalError` (`HeaderUnbound`), because `header` was
  never bound. A file with no non-blank line at all gives `DataFrame(None)`,
  which fails (`NoColumns`). So a leading blank line is not skipped to find
  the header, and an empty file does not give an empty table.
- The `sep` argument is accepted and never used. The comma is fixed in the
  pattern.
- `int()` accepts surrounding whitespace and single underscores between
  digits, and `float()` accepts `inf`, `infinity` and `nan` in any case. The
  model includes these.
- A data line shorter than the header leaves the later columns short (`zip`
  stops). A longer one has its extra values dropped. `row`, `filter` and
  `group_by` then raise `IndexError` on the short columns. The model keeps
  all of this.

## Model

| member | source | states |
|---|---|---|
| `Frames.Make` | dataframe.py:4-7 | a table built from a dict has the dict's keys in insertion order and its values; the row count is the first column's length, or 0 for an empty dict |
| `Frames.GetColumn` | dataframe.py:9-11 | `t[key]` returns the column exactly when it exists; otherwise it is `KeyError(key)` |
| `Frames.Preview` | dataframe.py:15-16 | the preview has the same columns; each is a prefix of its column of length `min(5, num_rows)`, or the whole column when that is shorter |
| `Frames.PreviewSmall` | dataframe.py:15-16 | a table of at most five rows with no short column is previewed whole |
| `Frames.GetRow` | dataframe.py:19-23 | `row(i)` succeeds exactly when `0 <= i < num_rows` and every column reaches row `i`, mapping each column to its `i`-th value; otherwise `IndexError` |
| `Frames.Select` | dataframe.py:35-38 | `select` fails with `KeyError` on the first name that is not a column; otherwise the columns are the names once each in first-seen order, each column is unchanged, and the row count comes from the first name |
| `Frames.SelectAll` | dataframe.py:35-38 | selecting all columns in order gives back the same table |
| `Frames.SelectThenGet` | dataframe.py:35-38 | a selected column reads the same in the selection as in the table |
| `Frames.Aggregate` | dataframe.py:51-53 | `aggregate` applies the function to the whole column, or is `KeyError` when the column is missing |
| `Frames.AggregateSelected` | dataframe.py:51-53 | aggregating a column of a selection is the same as aggregating it in the table |
| `Frames.KeptExact` | dataframe.py:28-30 | row `i` is kept exactly when it is in range and the predicate holds for it |
| `Frames.KeptIncreasing` | dataframe.py:28-32 | kept rows stay in their original order, none twice |
| `Frames.AppendRow` | dataframe.py:31-32 | appending row `i` to every column fails with `IndexError` exactly when some column is too short; otherwise each column gains that row's value |
| `Frames.FilterRowStep` | dataframe.py:28-32 | one pass of the `filter` loop fails with `IndexError` exactly when some column cannot hold row `i`; otherwise it moves the gathered columns to those of the rows kept among the first `i + 1` |
| `Frames.Filter` | dataframe.py:25-33 | `filter` fails with `IndexError` when some column is shorter than `num_rows`; otherwise it returns the sub-table of exactly the rows the predicate keeps, in order |
| `Frames.FilterRow` | dataframe.py:25-33 | the `k`-th row of the filtered table is the `k`-th kept row of the original, and the predicate holds for it |
| `Frames.FilterKeepsAll` | dataframe.py:25-33 | a predicate true for every row gives back the same table |
| `Frames.AddRow` | dataframe.py:43-48 | one `group_by` step fails with `KeyError` when the key column is missing and with `IndexError` when a column is too short; otherwise it moves the key order and groups to their values after one more row |
| `Frames.GroupBy` | dataframe.py:40-49 | `group_by` returns `KeyError` when the table has rows but no such column, `IndexError` when a column is too short, and otherwise the grouping |
| `Frames.GroupedKeys` | dataframe.py:40-49 | the group keys are the key column's values, each once, in first-seen order, and each key has a table |
| `Frames.GroupedTable` | dataframe.py:43-49 | a key's table is the sub-table of exactly the rows holding that key, listed in increasing row order |
| `Frames.RowsWithKeyIncreasing` | dataframe.py:43-48 | the rows of one key are listed in increasing order, none twice |
| `Frames.GroupedTableSize` | dataframe.py:43-49 | a key's table has as many rows as the key column holds that key |
| `Frames.GroupOfRow` | dataframe.py:43-48 | every row goes to the group of its own key and to no other |
| `Frames.GroupSizes` | dataframe.py:40-49 | the group sizes add up to the row count: no row is lost or duplicated |
| `Values.Strip` | dataframe.py:98 | `strip()` returns a middle part of the text that starts and ends with no whitespace, starting after all of the text's leading whitespace and followed only by whitespace |
| `Values.ConvertValue` | dataframe.py:57-69 | the empty text stays text; otherwise, after removing one pair of enclosing quotes, the result is an int exactly when `int()` accepts the text, a float exactly when only `float()` does, and the text otherwise |
| `Values.ParseIntStrip` | dataframe.py:63-64 | whitespace around a text makes no difference to `int()` |
| `Values.ParseIntShape` | dataframe.py:63-64 | a text `int()` accepts is, once stripped, an optional sign and then digits and underscores ending in a digit; only a leading minus gives a negative number |
| `Values.FloatLiteralDecimal` | dataframe.py:66-67 | `float()` accepts digits with a decimal point before, after or between them |
| `Values.FloatLiteralPoint` | dataframe.py:66-69 | `float()` refuses a lone decimal point |
| `Values.IntLiteralIsFloatLiteral` | dataframe.py:63-67 | every text `int()` accepts is also accepted by `float()`, so the order of the two attempts decides the type |
| `Values.ParseIntToString` | dataframe.py:63-64 | `int()` reads back every int that `str()` renders |
| `Values.ConvertIntToString` | dataframe.py:57-69 | a rendered int, bare or in one pair of quotes, converts back to that int |
| `Tokenizer.ClosingQuote` | dataframe.py:78 | the closing quote of a quoted field is a quote that is not the first of a doubled pair |
| `Tokenizer.ClosingQuoteSpec` | dataframe.py:78 | no closing quote is found exactly when the whole text is ordinary characters and doubled quotes; the text before the closing quote found is always such a body |
| `Tokenizer.MatchAtQuote` | dataframe.py:76-83 | at a double quote only the quoted alternative can match, and the match is the quoted field's |
| `Tokenizer.MatchAtUnquoted` | dataframe.py:76-83 | after leading whitespace and a character other than a quote, only the unquoted alternative can match |
| `Tokenizer.QuotedMatch` | dataframe.py:76-83 | a quoted field followed by a comma or the end of the line is matched whole, through the comma, capturing its escaped body |
| `Tokenizer.PlainThenMatch` | dataframe.py:76-83 | an unquoted field followed by a comma is matched through the comma, capturing the field without its leading whitespace |
| `Tokenizer.Scan` | dataframe.py:96 | `finditer` over a line always ends with the empty match at the end of the line |
| `Tokenizer.LineValuesMatch` | dataframe.py:96-100 | a match where the scan stands gives the next value, and the scan goes on after the match |
| `Tokenizer.SplitLine` | dataframe.py:95-100 | the loop over the matches builds exactly the line's values |
| `Tokenizer.CollapseEscape` | dataframe.py:98 | `replace('""', '"')` undoes the doubling of quotes |
| `Tokenizer.CollapseQuoteFree` | dataframe.py:98 | `replace('""', '"')` leaves a text without quotes unchanged |
| `Tokenizer.CleanEscape` | dataframe.py:98 | an escaped field is cleaned back to the field, stripped |
| `Tokenizer.FieldsJoinQuoted` | dataframe.py:74-100 | round trip: any fields written as quoted fields and joined by commas read back stripped, followed by the empty end-of-line field |
| `Tokenizer.FieldsJoinQuotedTrimmed` | dataframe.py:74-100 | fields with no surrounding whitespace, written as quoted fields, read back unchanged |
| `Tokenizer.ScanPlainThen` | dataframe.py:96 | after an unquoted field and a comma, `finditer` yields the field without its leading whitespace and goes on after the comma |
| `Tokenizer.ScanJoin` | dataframe.py:96 | over any line of unquoted and quoted fields, `finditer` captures each field in turn, then the empty end-of-line match unless the last field is an empty unquoted one |
| `Tokenizer.FieldsJoin` | dataframe.py:74-100 | round trip for lines mixing unquoted and quoted fields: each field reads back as its text stripped, then the empty end-of-line field unless the last field is an empty unquoted one |
| `Tokenizer.FieldsExample` | dataframe.py:74-100 | the line `hello,"wor""ld"` gives the fields `hello`, `wor"ld` and the empty end-of-line field |
| `Tokenizer.FieldsPlain` | dataframe.py:74-86 | the fields of a line without quotes are its comma-separated pieces, stripped, plus one empty field unless the line is empty or ends in a comma |
| `Tokenizer.FieldsPlainCount` | dataframe.py:74-86 | a line without quotes has two fields more than commas, or one when it is empty or ends in a comma |
| `Csv.RStripNewlinesSpec` | dataframe.py:91 | `rstrip("\n\r")` keeps a prefix, removes only line-break characters, and leaves none at the end |
| `Csv.ReadState` | dataframe.py:88-107 | while reading, the column names are the header's names once each in first-seen order, every header name has a column and every column a header name |
| `Csv.ReadCsvSpec` | dataframe.py:88-109 | a result table is well formed and its columns are the header's names once each, in first-seen order |
| `Csv.NewColumns` | dataframe.py:103-104 | `{h: [] for h in header}` has each header name once, in first-seen order, each with an empty list |
| `Csv.ZipAppend` | dataframe.py:106-107 | `zip` appends each value to the column of the header name at its position, up to the shorter of header and line |
| `Csv.ReadStateErrorStays` | dataframe.py:88-107 | once an exception is raised, the later lines change nothing |
| `Csv.ReadStateUnbound` | dataframe.py:88-104 | no header is bound exactly while every line so far is blank |
| `Csv.ReadStateShape` | dataframe.py:90-104 | the header is bound, to the first line's values, exactly when the first line is not blank; the only error during the loop is `HeaderUnbound` |
| `Csv.ReadStateData` | dataframe.py:102-107 | each column holds, in file order, every value `zip` paired with a header position of that name |
| `Csv.ReadLine` | dataframe.py:90-107 | one pass of the loop moves the state to what it is after line `i`, or raises `UnboundLocalError`, which is then what the whole file gives |
| `Csv.ReadCsv` | dataframe.py:88-109 | the line loop returns what `ReadCsvSpec` says for these lines |
| `Csv.ReadCsvOutcome` | dataframe.py:88-109 | the result is `NoColumns` exactly when every line is blank, and `HeaderUnbound` exactly when the first line is blank and a later one is not; otherwise it is a table whose columns are the first line's distinct values in order |
| `Csv.ReadCsvColumn` | dataframe.py:102-109 | every column of the result is a header name and holds what `zip` gave that name from each later non-blank line |
| `Csv.ReadCsvTable` | dataframe.py:88-109 | with distinct header names and no data line shorter than the header, column `header[j]` is the `j`-th value of every data line, and the row count is the number of non-blank data lines |

## Left out

- Opening the file, decoding it as UTF-8 with an optional byte-order mark,
  and universal-newline translation are I/O. `ReadCsv` takes the lines that
  iterating over the file yields.
- The `re` engine itself is not modelled. The pattern is replaced by a
  scanner (`Tokenizer.MatchAt`) derived from it case by case. The pattern's
  `$` is read as the end of the line. `$` also matches before a final `\n`,
  but a line has none left after `rstrip`.
- Python's cross-type equality of dict keys (`1 == 1.0 == True`) is not
  modelled. The model does not merge the keys `Int(1)` and `Float("1.0")`,
  nor `Float("1.0")` and `Float("1.00")`. NaN keys are not distinguished.
- Floating point: a float value keeps the text `float()` accepted. Its
  numeric value, rounding and formatting are not modelled.
- Non-ASCII decimal digits are not modelled. Python's `int()` and `float()`
  accept them; the model does not.
- The predicate of `filter` and the function of `aggregate` are passed in as
  total functions. Exceptions they raise, and Python truthiness of
  non-boolean results, are not modelled.
- Aliasing: `select` and `DataFrame(data)` share the caller's lists and dict.
  Since nothing changes a table afterwards, only values are modelled.
  Mutating those lists from outside is not modelled.
- Values.ParseInt, Values.ConvertValue: no limit on the number of digits.
  CPython 3.11 and later (and the security releases of 3.7 to 3.10) refuse
  `int()` of a text of more than 4300 digits with `ValueError`, so
  `convert_value` then falls through to `float()`, which gives `inf` or a
  rounded value. The model converts such a text to its exact int.
- `__repr__`: only the preview dict is modelled, not the string formatting.
- When an exception escapes `filter` or `group_by` mid-loop, the model
  returns only the error. The half-built dict Python leaves behind is not
  modelled; no caller can reach it.
