# CSV ⇄ JSON converter: a Dafny model of its conversion core

The program converts a CSV file to a JSON array of objects and back again. This project
models the pure part of both directions and proves properties of it:

- **Value coercion (`convert_value`).** A cell that is a non-empty string of ASCII digits
  becomes the integer it spells. Otherwise, text that `float()` accepts becomes a float.
  Anything else stays text. `Coercion.Coerce` models this. `Decimal` gives the digit
  reading (`DigitsValue`) and its partner, the canonical numeral `ShowNat`.
- **CSV → JSON (`convert_csv_to_json`).** Each record is built as `dict(zip(header, cells))`.
  Every value is then replaced in place by its coercion. One object comes out per record,
  in order. This is `CsvToJson.Convert`.
- **JSON → CSV (`convert_json_to_csv`).** The top level must be an array. The header is
  the first object's key order, or empty for an empty array. `csv.DictWriter` then lays out
  each object as one row in header order, using its default settings: a missing key gives
  an empty cell, and a key outside the header is an error. `JsonToCsv.Convert` returns the
  resulting table or failure. `JsonToCsv.Output` returns the lines that reach the output
  file.
- **Round trip.** `RoundTrip.CsvJsonCsv` connects the two directions. It holds for a table
  that is rectangular (every record has one cell per header name), has distinct header
  names and has at least one record. Such a table comes back with the same header and the
  same records in the same order. Each cell comes back as the text of its coerced value.
  Without the last condition the header is lost (`RoundTrip.HeaderOnlyLosesHeader`).

Errors are values of `Formats.Failure` returned in a `Result`. The model never exits the
process. Float parsing and float printing are not modelled. Instead, every operation takes
a `Values.FloatFormat` parameter. Its `accepts` field says whether `float(t)` succeeds. Its
`show` field is the text `str()` writes for that float. A float value carries the text it
was read from. `Values.FloatSyntaxFacts` states the only two facts about `float()` that
the general lemmas use: it rejects `""`, and it accepts `-` followed by digits. The
concrete lemmas in `examples.dfy` also assume, in their preconditions, what `float()` does
with the particular cells they use (for instance that it accepts "9.5" and rejects "Alice"),
and that `str()` writes the float 9.5 as "9.5".

Files: `wrappers.dfy` (Option, Result), `decimal.dfy`, `values.dfy`, `coercion.dfy`,
`dicts.dfy` (insertion-ordered Python dicts), `formats.dfy` (Table, Json, Failure),
`csv_to_json.dfy`, `json_to_csv.dfy`, `round_trip.dfy`, `examples.dfy`.

### Library defaults the code relies on

- A JSON object that lacks a header key gets an empty cell (`restval=''`), so the
  `KeyError` handler at main.py:50-51 is never reached. See `Examples.MissingKeyPadded`.
- A JSON object with a key outside the header makes the writer raise (`extrasaction='raise'`).
  The error reaches the catch-all at main.py:101-102 after the header and the earlier rows
  have been written. See `Examples.ExtraKeyRejected`.
- A CSV record shorter than the header gets `None` for its missing columns, and a longer
  one gets its extra cells as a list under the key `None`. `convert_value` raises on either
  value, so the first such record ends the run before anything is written. The model
  reports it as the failure `RaggedRow`.
- An empty JSON array gives a file holding one empty header line, because `writeheader`
  still runs. `Output` is then `Some([[]])`.

## Model

| member | source | states |
|---|---|---|
| Coercion.Coerce | main.py:54-61 | The result is an integer exactly when the cell is a non-empty ASCII digit string, and that integer is the decimal value of the digits. It is a float exactly when the cell is not all-digit and `float()` accepts it. Float and text results carry the cell's text unchanged. |
| Coercion.CoerceNumeral | main.py:56-57 | For every natural number n, its canonical numeral coerces to `Int(n)`, whatever `float()` does. Digit reading is the inverse of numeral printing. |
| Coercion.IntegerPriority | main.py:56-59 | The integer branch comes first. An all-digit cell is never a float or text, and making `float()` accept everything does not change its coercion. |
| Coercion.SignedNeverInt | main.py:56-59 | A cell with a leading `-` or `+` never becomes an integer. Given the float facts, `-` followed by digits becomes a float of that text. |
| Coercion.UnparsableUnchanged | main.py:58-61 | A cell that is neither all-digit nor accepted by `float()` comes back unchanged as text. Given the float facts, this includes the empty cell. |
| Coercion.RenderCoerce | main.py:54-61 | Writing a coerced cell back as text: a digit string loses exactly its redundant leading zeros, and a canonical numeral is reproduced. A float is re-rendered by `str()`. Any other text comes back unchanged. |
| Decimal.DigitsValue | main.py:56-57 | The integer `int()` reads from a digit string of length n is below 10^n. When the first digit is not `0`, it is at least 10^(n-1). |
| Decimal.ShowNat | main.py:44 | The text written for a natural number is a canonical numeral: ASCII digits with no redundant leading zero. It has exactly as many digits as the number needs, so a positive n with k digits lies between 10^(k-1) and 10^k. |
| Decimal.ValueOfShow | main.py:57 | Reading back the canonical numeral of n gives n. |
| Decimal.ShowOfValue | main.py:57 | Reading a digit string with `int()` and printing the value gives the string without its redundant leading zeros. |
| Decimal.StripZerosCanonical | main.py:57 | Stripping leading zeros gives a canonical numeral. The result is a suffix of the input, and everything it drops is `0`. The string is unchanged exactly when it was already canonical. |
| Values.ShowInt | main.py:44 | The text written for a non-negative integer is a canonical numeral that reads back as the integer. For a negative integer it is `-` followed by a canonical numeral that reads back as its magnitude. |
| Values.Render | main.py:44 | The text written for a value: an integer's decimal text, which reads back as the integer; a float's `str()` text; a string unchanged. |
| Dicts.ZipDict | main.py:12-13 | The record built from a header and a row has distinct keys, and its keys are exactly the header's names. |
| Dicts.ZipDictLookup | main.py:12-13 | In the record, each header name maps to the cell of its last column. |
| Dicts.ZipDictOrder | main.py:12-13 | The record's keys come in the order of each header name's first occurrence in the header. |
| Dicts.ZipDictDistinct | main.py:12-13 | With distinct header names, the record pairs each name with the cell in the same position, in header order. |
| Dicts.InsertLookup | main.py:12-13 | After `d[k] = v`, `k` maps to `v`, and every other key maps to what it mapped to before. |
| Dicts.InsertKeys | main.py:12-13 | Assigning to a present key keeps the key order. Assigning to a new key appends it. |
| Dicts.LookupMapValues | main.py:16-18 | Replacing every value by its image under f keeps which keys are present. Each key then finds the image of its old value. |
| Dicts.Lookup | main.py:44 | A lookup finds a value exactly when the key is among the object's keys. |
| Dicts.LookupEntry | main.py:44 | In a dictionary with distinct keys, looking up an entry's key finds that entry's value. |
| CsvToJson.ReadRecord | main.py:12-13 | The record the reader builds for a row has distinct keys, and they are exactly the header names. With distinct header names, it pairs each name with the cell in the same position. |
| CsvToJson.CoerceRecord | main.py:16-18 | The in-place loop keeps the record's keys and their order. Every key still present maps to the coercion of its old text. |
| CsvToJson.Convert | main.py:12-18 | Conversion succeeds exactly when every record matches the header. It then gives one document per record, in record order: the record with its values coerced. Otherwise it fails with `RaggedRow` at the first mismatching record, and every earlier record matched. |
| CsvToJson.DocumentContents | main.py:13-18 | Each document has distinct keys, and its keys are exactly the header names. Under each name is the coercion of that record's cell in the last column with that name. |
| CsvToJson.DocumentOfDistinctHeader | main.py:13-18 | With distinct header names, document i has the header as its key order. It pairs each name with the coercion of record i's cell in that column. |
| CsvToJson.ConvertOfDistinctHeader | main.py:12-18 | With distinct header names, a rectangular table converts to exactly one positional document per record, in record order: the header paired with that record's coerced cells. |
| JsonToCsv.FieldNames | main.py:39 | The header is the first element's key order, or empty for an empty array. An element 0 that is not an object fails with `NotAnObject(0)`. |
| JsonToCsv.CellText | main.py:44 | A header key missing from the object gives the empty cell. A string value is written unchanged, and a float as `str()` writes it. A non-negative integer is written as its canonical numeral, which reads back as the integer. A negative integer is written as `-` followed by the canonical numeral of its magnitude. |
| JsonToCsv.LayoutRow | main.py:42-44 | An element lays out exactly when it is an object whose keys all lie in the header. Its row has one cell per header name, in header order: the value's text, or `''` when the key is missing. Otherwise it fails with `NotAnObject`, or with `ExtraKeys` listing exactly the keys outside the header. |
| JsonToCsv.WriteRows | main.py:44 | The rows written are the layouts of the leading elements, in order. Writing stops at the first element that fails, with that element's failure, and nothing after it is written. |
| JsonToCsv.Convert | main.py:35-44 | A top level that is not an array is rejected with `NotAnArray`, and an element 0 that is not an object with `NotAnObject(0)`. An empty array gives an empty header and no rows. Success means every element laid out under the first object's keys, with one row per element, in order. Otherwise the failure is the layout failure of the first element that does not lay out, and every earlier element laid out. |
| JsonToCsv.Output | main.py:35-44 | The output file is never opened when the top level is not an array or element 0 is not an object. On success, the file holds the header and then every row. On a later failure at element k, it holds the header and the rows of elements 0 to k-1. |
| RoundTrip.RowRoundTrip | main.py:13-44 | For a rectangular table with distinct header names, writing back a record converted to JSON gives its cells, each replaced by the text of its coerced value. |
| RoundTrip.CsvJsonCsv | main.py:12-44 | For a rectangular table with distinct header names and at least one record, CSV → JSON → CSV keeps the header and the record order. Each cell becomes the text of its coerced value. |
| RoundTrip.CsvJsonCsvExact | main.py:12-44 | For a rectangular table with distinct header names and at least one record, in which every cell is a canonical numeral or text that is neither all-digit nor accepted by `float()`, the round trip reproduces the table exactly. |
| RoundTrip.RenderedRowsExact | main.py:12-44 | A cell that is a canonical numeral, or text that is neither all-digit nor accepted by `float()`, renders back from its coerced value as exactly its own text. Whether the cell reaches the output at all depends on the header: see `Examples.DuplicateHeaderKeepsLastCell`. |
| RoundTrip.HeaderOnlyLosesHeader | main.py:13-39 | A table with no records converts to an empty array, and an empty array converts back to a table without a header. |
| Examples.CoercionExamples | main.py:54-61 | "42" becomes the integer 42 and "-42" a float. "3.14" becomes a float. "abc" and "" stay text. |
| Examples.MissingKeyPadded | main.py:42-44 | `[{"a":1,"b":2},{"a":3}]` converts to header `a,b` with rows `1,2` and `3,` (an empty cell), not to an error. |
| Examples.DuplicateHeaderKeepsLastCell | main.py:12-18 | The table with header `a,a` and record `1,x` converts to one document holding `a` once, with the text "x" (when `float()` rejects "x"): the earlier cell "1" is dropped. |
| Examples.DuplicateHeaderWrittenBack | main.py:39-44 | That document is written back as a table with the single column `a` and the single cell "x". |
| Examples.ExtraKeyRejected | main.py:41-44 | An object with a key outside the header fails with `ExtraKeys` at that element, after the header and the earlier rows are written. |
| Examples.ScoresToJson | main.py:12-18 | The name/age/score table converts to objects in which ages and the whole score are integers, the fractional score is a float, and names are strings. |
| Examples.ScoresRoundTrip | main.py:12-44 | Converting the name/age/score table to JSON and back reproduces it, given that `str()` writes 9.5 as "9.5". |

## Left out

- Coercion.Coerce: the limit on integer string conversion is not modelled. On Python 3.11
  and later, and on the security releases of 3.7 to 3.10, `int(value)` at main.py:57 raises
  `ValueError` for a cell of more than 4300 digits (the default limit). That line is outside
  the `try` at main.py:58-61, so the error reaches the catch-all at main.py:101-102 and
  nothing is written. The model turns every digit string into an integer, and
  `CsvToJson.Convert` succeeds on such a cell. The limit depends on the interpreter version
  and its settings.

- File I/O and process control are not modelled. This covers opening, reading and writing
  files, the input-existence check, `sys.exit`, argparse and the success message
  (main.py:11, 20-24, 32, 46-49, 64-106). Failures are `Failure` values instead. When a
  run would write its output is modelled by `JsonToCsv.Output`, and by `CsvToJson.Convert`
  failing before anything is written.
- CSV and JSON text are not parsed or printed. `csv.DictReader`, `csv.DictWriter`,
  `json.load` and `json.dump` are library code. Tables and documents are already parsed.
  Quoting, the 2-space indent, and the file-not-found and malformed-input failures belong
  to that layer. The round trip takes `json.dump` followed by `json.load` to give back the
  same documents.
- Blank CSV lines are not modelled. The reader skips them, and `Table.rows` holds only the
  records it yields.
- Floating point is not modelled. What `float()` accepts (whitespace, exponents, `nan`,
  `inf`, underscores) and how `str()` prints a float are the `FloatFormat` parameter.
  A float value is carried as its source text.
- Only ASCII digits are modelled. `str.isdigit` also accepts other Unicode digits, and for
  some of them, such as superscripts, `int()` then raises. That error reaches only the
  catch-all at main.py:101-102.
- Nested objects, arrays inside objects, booleans and `null` are not representable as
  values. How the library would render them is not visible in the source.
- Coercion.SignedNeverInt: the float outcome is proved only for a leading `-` followed by
  digits. For `+`, the lemma proves only that no integer comes out, because
  `FloatSyntaxFacts` states nothing about `+`.
- JsonToCsv.LayoutRow: the failure for extra keys carries the keys as a set. The
  library's message lists them in an order the model does not fix.
- Repeated keys inside one JSON object are not modelled. `json.load` keeps only the last
  value, so a loaded object never has them. The sequence representation could hold them,
  and the model's lookups then use the first entry.
