# Contact-form submission log: a Dafny model

The application is a small Express server with one live route. `POST /submit`
takes a `name` and a `message` from a form. It builds one CSV line from a
timestamp, the name and the message. Then it appends that line to
`data/messages.csv`.

This project models that serialiser and the data file it grows:

- `escape.dfy`, module `QuoteEscape`: the quote doubling applied to the
  message. Every `"` becomes `""` and nothing else changes. This is rule 7 of
  RFC 4180, section 2. The module also has the inverse (`UnescapeQuotes`) and
  the exact set of strings the escape can produce (`QuotesPaired`).
- `csv_record.dfy`, module `CsvRecord`: the line template `CsvLine`. Only the
  message is escaped; the timestamp and the name go in as they are. The module
  also holds a specification-only reader for that record shape
  (`ReadQuotedBody`, `ReadFields`, `ParseRecord`). Its fields follow RFC 4180,
  section 2: a quoted field may hold commas and line breaks, and `""` inside it
  stands for one quote. Records end with a line feed, as the handler writes
  them, not with CRLF.
- `data_file.dfy`, module `DataFile`: appending to the file (`Append`), the
  effect of one submission (`Submit`), the file after a series of submissions
  (`Replay`), and a reader for the whole file (`ParseFile`). `Submit` and
  `Replay` use the line as the handler writes it; `SafeSubmit` is the same
  step with the corrected line of the finding below.
- `wrappers.dfy` (`Option`) and `seq_facts.dfy` (small facts about
  sequence concatenation) are helpers.

The clock is not modelled. The timestamp is an opaque string parameter. The
read-back lemmas require that it holds no `"`. ISO 8601 text from
`toISOString` never does.

What index.js writes, and so what the model states:

- The columns come in the order timestamp, name, message.
- There is no header row and no byte-order mark.
- Quotes are doubled in the message only.
- Each record ends with a line feed.

## Model

| member | source | states |
|---|---|---|
| `QuoteEscape.EscapeQuotes` | index.js:47 | The escaped message is longer than the input by exactly the number of `"` in the input. |
| `QuoteEscape.EscapeCounts` | index.js:47 | After escaping, `"` occurs twice as often as before, and every other character occurs exactly as often as before. |
| `QuoteEscape.EscapeKeepsOtherCharacters` | index.js:47 | With the quotes dropped, input and output are the same text, so no other character is changed, moved or lost. |
| `QuoteEscape.EscapeFixpoint` | index.js:47 | A message is embedded unchanged exactly when it holds no `"`. |
| `QuoteEscape.EscapeAppend` | index.js:47 | The global replace works character by character: escaping a concatenation is the concatenation of the escapes. |
| `QuoteEscape.UnescapeEscape` | index.js:47 | Round trip: collapsing each `""` of an escaped message back to `"` gives the message back. |
| `QuoteEscape.EscapeUnescape` | index.js:47 | The converse round trip: a text with no lone quote is the escape of its collapse. |
| `QuoteEscape.EscapeIsPaired` | index.js:47 | In an escaped message every `"` is part of an adjacent `""` pair, so there is no lone quote. |
| `QuoteEscape.PairedIffEscaped` | index.js:47 | The texts the escape can produce are exactly the texts without a lone quote. |
| `QuoteEscape.EscapeInjective` | index.js:47 | Two different messages never escape to the same text. |
| `CsvRecord.CsvLine` | index.js:46-47 | The line starts with `"` and ends with `"` and a line feed. Its length is the three field lengths plus the message's quote count plus 9. It holds exactly one line feed and two commas more than the fields do. |
| `CsvRecord.ReadEscapedField` | index.js:47 | An escaped message followed by its closing quote reads back as the message, so no quote from the escape can end the quoted field early. |
| `CsvRecord.ReadQuotedBodyConsumes` | index.js:47 | Conversely, whatever the field reader accepts is the escape of the field it returns plus a closing quote. |
| `CsvRecord.CsvLineRoundTrip` | index.js:46-47 | A line reads back as exactly (timestamp, name, message), in that order, whatever follows it, when the timestamp and the name hold no `"`. |
| `CsvRecord.CsvLineRoundTripIff` | index.js:47 | The line reads back as the submission if and only if the timestamp and the unescaped name hold no `"`. |
| `CsvRecord.ParseRecordConsumes` | index.js:46-47 | Every text the record reader accepts is a three-field line with each field escaped and quoted, followed by the rest of the input. |
| `CsvRecord.NameQuoteBreaksRecord` | index.js:47 | As written, a name consisting of one `"` yields a line that does not read as a record at all. This holds for every timestamp without `"` and every message whose first character is neither `"` nor a comma. |
| `CsvRecord.SafeCsvLine` | index.js:47 | The corrected line escapes every field. It reads back as the submission for every input, and it equals the as-written line whenever the timestamp and the name hold no `"`. |
| `DataFile.Append` | index.js:53 | Appending keeps the old contents as an unchanged prefix, and what follows them is exactly the appended text. The file then reads as the old records followed by the appended text's records. |
| `DataFile.Submit` | index.js:46-53 | A submission keeps the old file as a prefix and adds exactly the line built from (timestamp, name, message) after it. When the timestamp and name hold no `"`, the file then reads as the old records plus exactly this submission. |
| `DataFile.NameQuoteBreaksFile` | index.js:47-53 | As written, after any series of submissions that reads back, one more submission whose name is a single `"` leaves the whole data file unreadable. This holds for every timestamp without `"` and every message that starts with neither `"` nor a comma. |
| `DataFile.SafeSubmit` | index.js:47-53 | With the corrected line, the old file stays as a prefix and exactly the corrected line follows it. One submission adds exactly its own record to a readable file, whatever the fields hold. |
| `DataFile.ParseFileConcat` | index.js:53 | Two readable texts written one after the other read as the records of the first followed by those of the second. |
| `DataFile.ReplayReadsBack` | index.js:46-53 | Starting with no file, a series of submissions reads back as exactly those submissions in order, provided no timestamp or name holds a `"`. |
| `DataFile.ReplayKeepsPrefix` | index.js:53 | Later submissions never change what earlier ones wrote: the file after one series of submissions is a prefix of the file after that series followed by more. |

## Left out

- Express setup, body parsing, static files and `app.listen` (index.js:1-18, 64-67). This is HTTP plumbing with no logic to state.
- The redirect to the thanks page and the 500 reply on a failed append (index.js:53-61). File-system failure is I/O. `Append` models the successful append only.
- `fs.mkdirSync` (index.js:50). A missing file is the empty string, and appending creates it.
- `new Date().toISOString()` (index.js:46). This is a clock read. The timestamp is an opaque parameter, and the read-back lemmas require that it holds no `"`. That holds of ISO 8601 output but is not checked here.
- Form values that are not strings (index.js:42-47). The model's `name` is the text the template literal makes of the value: a missing name is written as `undefined`, and an array or object name from the extended URL-encoded parser is written as its `toString` (`a,b`, `[object Object]`). A `message` that is not a string (missing, an array or an object) has no `replace` method, so the handler fails before anything is written. The model takes `message` as a string and does not model that failure.
- The commented-out routes (index.js:24-38). This is dead code.
- Concurrent submissions. Two asynchronous appends may land in either order. The model applies appends one after another.
- Character encoding. JavaScript strings are UTF-16 and the file is written as UTF-8. The model works on Dafny characters.
- The reader accepts only quoted fields, because the writer never produces any other kind. RFC 4180's unquoted fields are not modelled. Records end with a line feed, as the handler writes them, not with the CRLF of RFC 4180, section 2, rule 1.
- models/Message.js is a Mongoose schema declaration with a default of `Date.now`. It has no logic of its own.
- index.js has no list, edit, delete, filter or export routes, so there is nothing of that kind to model.

## Findings

| source | as written | input that shows it | evidently intended | confidence | as-written member | corrected member |
|---|---|---|---|---|---|---|
| index.js:47 | `name` goes between the quotes with its own `"` not doubled. Only `message` is escaped. | name `"`, timestamp `t`, message `m`; more generally any timestamp without `"` and any message that starts with neither `"` nor a comma. For the small case the line is `"t",""","m"` followed by a line feed. The reader takes `""` as one quote and the name field runs on to `",`, so the record does not read as three fields. | Every quoted field has its quotes doubled, as is done for `message` (RFC 4180, section 2, rule 7). | not executed; high: the failing line is derived by proof | `CsvRecord.NameQuoteBreaksRecord` | `CsvRecord.SafeCsvLine` |
