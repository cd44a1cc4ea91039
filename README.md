# ctbus_health core, modelled in Dafny

This project models the three pieces of sequential logic in the ctbus_health ETL:

- **the diet document scan** (`DietDoc`, `diet.dfy`). `get_recent_diet_data` walks the body of a Google document. It strips every text run and recognises date headers (`DD/DD/DD` at the start) and time entries (`H:MM - ` or `HH:MM - ` at the start). It builds `date -> (time -> description)`. The nested loops are a method with loop invariants, proved against a fold `Scan`. `Scan` is proved equal to an independent, section-by-section description `Sections`.
- **the weight sheet extraction** (`WeightSheet`, `weight.dfy`). It covers the range string `year!R2C1:R367C3` and the row comprehension over rows of exactly three cells. It also covers the in-place `update` of this year's map with last year's, and the quote swap between single-quoted stored credentials and JSON.
- **the queue batch consumer** (`HealthIngest`, `ingest.dfy`). `lambda_handler` inserts one weight row per queue record inside one transaction, then commits once, then deletes each message by its receipt handle. Any exception raised after the database credentials are read makes it answer 500. The database and the queue are classes whose methods change their fields. The weight table's constraints (`date` UNIQUE, `0 < weight < 300`) are the database's invariant. The insert loop is proved against a pure function `Stage`.

`strings.dfy` (`Strings`) writes out the Python `str` builtins the core relies on:
- `strip`, with Python's whitespace set;
- splitting on the first occurrence of a separator;
- single-character `replace`;
- `str` of an integer.

`wrappers.dfy` holds `Option` and `Result`.

Calls into code outside the model are parameters:
- the Google API fetch;
- `float()`, as a partial parse `string -> Option<real>`;
- `json.loads` of a message body, as a partial parse into a record whose keys may be missing;
- the server's reading of a text as a `DATE`;
- whether the connection, the commit and each delete succeed (constant fields of `Database` and `Queue`).

Three behaviours of the code are worth stating plainly:
- On a date present in both years, `data.update(last_year)` runs after this year is loaded, so **last year's value wins**.
- The write is a **bare `INSERT`**, not an upsert. A record whose date is already stored fails the whole batch (`HealthIngest.RedeliveredRecordFailsBatch`).
- Every row that does not have **exactly** three cells is dropped, longer rows included. The date label is used as it stands, not parsed.

## Model

| member | source | states |
|---|---|---|
| Strings.TrimStart | etl/ctbus-diet-gdoc-api/diet_api_lib/app.py:49 | the result is a suffix of the input and does not start with whitespace |
| Strings.TrimStartDropsSpaces | etl/ctbus-diet-gdoc-api/diet_api_lib/app.py:49 | every character the leading trim drops is whitespace |
| Strings.TrimEnd | etl/ctbus-diet-gdoc-api/diet_api_lib/app.py:49 | the result is a prefix of the input and does not end with whitespace |
| Strings.TrimEndDropsSpaces | etl/ctbus-diet-gdoc-api/diet_api_lib/app.py:49 | every character the trailing trim drops is whitespace |
| Strings.LeadingSpaces | etl/ctbus-diet-gdoc-api/diet_api_lib/app.py:49 | the number of characters the leading trim drops: within the input, and the character after them is not whitespace |
| Strings.Strip | etl/ctbus-diet-gdoc-api/diet_api_lib/app.py:49 | defined by its body as the trailing trim of the leading trim; characterised by `Strings.StripSpec` |
| Strings.StripSpec | etl/ctbus-diet-gdoc-api/diet_api_lib/app.py:49 | `strip()` returns the contiguous slice of the input after its leading whitespace, with no whitespace at either end; only whitespace is removed |
| Strings.StripIdempotent | etl/ctbus-diet-gdoc-api/diet_api_lib/app.py:49 | stripping twice is stripping once |
| Strings.FindFrom | etl/ctbus-diet-gdoc-api/diet_api_lib/app.py:58 | the first occurrence of the separator at or after a position, or none at all |
| Strings.SplitOnce | etl/ctbus-diet-gdoc-api/diet_api_lib/app.py:58 | `split(sep, 1)`: the two parts rejoined with the separator give the input, the separator occurs right after the first part and nowhere earlier; there is no split exactly when the separator does not occur |
| Strings.ReplaceChar | etl/ctbus-weight-gdoc-api/weight_api_lib/app.py:26 | one-character `replace`: same length, every occurrence of the old character becomes the new one and every other character is kept |
| Strings.ReplaceRemovesOld | etl/ctbus-weight-gdoc-api/weight_api_lib/app.py:59 | after replacing a character by a different one, it no longer occurs |
| Strings.ReplaceRoundTrip | etl/ctbus-weight-gdoc-api/weight_api_lib/app.py:26 | replacing `a` by `b` and then `b` by `a` returns the input exactly when `b` did not occur in it |
| Strings.NatToDecimal | etl/ctbus-weight-gdoc-api/weight_api_lib/app.py:48-49 | `str()` of a natural number is a non-empty run of digits with no leading zero |
| Strings.IntToDecimal | etl/ctbus-weight-gdoc-api/weight_api_lib/app.py:48-49 | `str()` of an integer: a leading `-` exactly for a negative number, then digits with no leading zero that read back as the number's magnitude |
| Strings.DecimalRoundTrip | etl/ctbus-weight-gdoc-api/weight_api_lib/app.py:48-49 | reading back the decimal digits of `str(n)` gives `n` |
| DietDoc.IsDateHeader | etl/ctbus-diet-gdoc-api/diet_api_lib/app.py:52 | a predicate defined by its body (the first eight characters are `DD/DD/DD`, the rest is unconstrained, as `re.match` only anchors at the start); characterised by `DietDoc.SectionKeys` and `DietDoc.LatestHeaderOwnsItsSection` |
| DietDoc.IsTimeEntry | etl/ctbus-diet-gdoc-api/diet_api_lib/app.py:57 | a predicate defined by its body (one or two digits, `:`, two digits, then " - "); characterised by `DietDoc.TimeEntrySplits` and `DietDoc.SplitEntry` |
| DietDoc.TimeEntrySplits | etl/ctbus-diet-gdoc-api/diet_api_lib/app.py:57-58 | on a line matching `\d{1,2}:\d{2} - `, the first " - " is the one right after the clock |
| DietDoc.SplitEntry | etl/ctbus-diet-gdoc-api/diet_api_lib/app.py:57-58 | the time is the 4- or 5-character clock at the start of the line, made of digits and `:`; the details are everything after the first " - ", later " - " included |
| DietDoc.Step | etl/ctbus-diet-gdoc-api/diet_api_lib/app.py:52-60 | each line keeps the scan consistent: the current date, once set, is a date header with a log of its own |
| DietDoc.Scan | etl/ctbus-diet-gdoc-api/diet_api_lib/app.py:44-60 | the state after any sequence of lines is consistent |
| DietDoc.ScanTextRun | etl/ctbus-diet-gdoc-api/diet_api_lib/app.py:48-60 | the inner loop's body for one text run takes `current_date` and `diet_dict` from the scan state before the run to the scan state after its stripped text |
| DietDoc.ScanParagraph | etl/ctbus-diet-gdoc-api/diet_api_lib/app.py:45-60 | the loop over one paragraph's elements advances the scan state by the paragraph's stripped text runs, in order, skipping other elements |
| DietDoc.GetRecentDietData | etl/ctbus-diet-gdoc-api/diet_api_lib/app.py:41-62 | the nested loops return the log of `Scan` over the stripped text runs of the document's paragraphs, in document order |
| DietDoc.LastHeader | etl/ctbus-diet-gdoc-api/diet_api_lib/app.py:52-53 | the position of the last date header, with no date header after it, or -1 when there is none |
| DietDoc.ScanMatchesSections | etl/ctbus-diet-gdoc-api/diet_api_lib/app.py:44-62 | the scan's log equals the section-by-section description, and `current_date` ends as the last date header seen, or None before any |
| DietDoc.SectionKeys | etl/ctbus-diet-gdoc-api/diet_api_lib/app.py:52-54 | the keys of the log are exactly the stripped date-header lines, each whole line, with or without entries under it |
| DietDoc.EntryKeys | etl/ctbus-diet-gdoc-api/diet_api_lib/app.py:57-60 | a time is in a section's map exactly when some time entry of that section has it |
| DietDoc.LastEntryWins | etl/ctbus-diet-gdoc-api/diet_api_lib/app.py:60 | of two entries with the same time in one section, the later one's details are kept |
| DietDoc.LatestHeaderOwnsItsSection | etl/ctbus-diet-gdoc-api/diet_api_lib/app.py:53-60 | after a header with no later header, it is the current date and its map is exactly the time entries after it; an earlier occurrence of the same header is discarded and other dates are kept |
| DietDoc.PreambleIgnored | etl/ctbus-diet-gdoc-api/diet_api_lib/app.py:59 | time entries before the first date header leave the log unchanged |
| DietDoc.LastHeaderAppend | etl/ctbus-diet-gdoc-api/diet_api_lib/app.py:52-53 | a preamble without headers only shifts the position of the last header |
| DietDoc.UnrecognisedTextIgnored | etl/ctbus-diet-gdoc-api/diet_api_lib/app.py:52-57 | a line that is neither a date header nor a time entry leaves both `current_date` and the log unchanged, wherever it stands |
| DietDoc.OtherItemHasNoText | etl/ctbus-diet-gdoc-api/diet_api_lib/app.py:45 | an item that is not a paragraph contributes no text |
| DietDoc.OtherElementHasNoText | etl/ctbus-diet-gdoc-api/diet_api_lib/app.py:48 | an element that is not a text run contributes no text |
| DietDoc.NonTextIgnored | etl/ctbus-diet-gdoc-api/diet_api_lib/app.py:45-48 | inserting a non-paragraph item, or a non-text-run element into a paragraph, leaves the whole scan unchanged |
| DietDoc.LambdaHandler | etl/ctbus-diet-gdoc-api/diet_api_lib/app.py:65-77 | 200 with the scanned log exactly when the document could be fetched, otherwise 500 with the error |
| WeightSheet.SheetRange | etl/ctbus-weight-gdoc-api/weight_api_lib/app.py:36 | defined by its body as `year + "!" + "R2C1:R367C3"`; characterised by `WeightSheet.SheetRangeParts` and `WeightSheet.YearRangeParts` |
| WeightSheet.SheetRangeParts | etl/ctbus-weight-gdoc-api/weight_api_lib/app.py:36 | the requested range is the year's sheet, `!`, then exactly `R2C1:R367C3` |
| WeightSheet.YearRangeParts | etl/ctbus-weight-gdoc-api/weight_api_lib/app.py:36-49 | `str(year)` holds no `!`, so each range the merge requests names exactly that year's sheet and the fixed cells |
| WeightSheet.RowsToWeights | etl/ctbus-weight-gdoc-api/weight_api_lib/app.py:41 | the comprehension, defined by its body over the rows in order with `float` as a partial parse; characterised by `WeightSheet.WeightsFailOnFirstBadRow`, `WeightSheet.WeightKeys`, `WeightSheet.WeightLastRowWins` and `WeightSheet.RaggedRowIgnored` |
| WeightSheet.WeightsFailOnFirstBadRow | etl/ctbus-weight-gdoc-api/weight_api_lib/app.py:41 | the comprehension fails exactly when some three-cell row's third cell is not a float, and then it reports the first such cell and returns no partial map |
| WeightSheet.WeightKeys | etl/ctbus-weight-gdoc-api/weight_api_lib/app.py:41 | on success, the keys are exactly the first cells of the rows with exactly three cells |
| WeightSheet.WeightLastRowWins | etl/ctbus-weight-gdoc-api/weight_api_lib/app.py:41 | on success, a label maps to the parse of the third cell of the last three-cell row carrying it; the second cell plays no part |
| WeightSheet.RaggedRowIgnored | etl/ctbus-weight-gdoc-api/weight_api_lib/app.py:41 | a row with fewer or more than three cells, wherever it stands, changes nothing, failure included |
| WeightSheet.ToJsonQuotes | etl/ctbus-weight-gdoc-api/weight_api_lib/app.py:26 | defined by its body as replacing every `'` by `"`; characterised by `WeightSheet.CredentialsRoundTrip` |
| WeightSheet.ToStoredQuotes | etl/ctbus-weight-gdoc-api/weight_api_lib/app.py:59 | defined by its body as replacing every `"` by `'`; characterised by `WeightSheet.StoredHasNoDoubleQuote` and `WeightSheet.CredentialsRoundTrip` |
| WeightSheet.StoredHasNoDoubleQuote | etl/ctbus-weight-gdoc-api/weight_api_lib/app.py:59 | the stored single-quoted form holds no `"` |
| WeightSheet.CredentialsRoundTrip | etl/ctbus-weight-gdoc-api/weight_api_lib/app.py:26-27 | the line 26 swap undoes the line 59 swap exactly when the JSON text held no `'` |
| WeightSheet.WeightDataForYear | etl/ctbus-weight-gdoc-api/weight_api_lib/app.py:22-41 | defined by its body: the fetch with the JSON credentials and the year's range, then the comprehension over the fetched rows (none when `values` is absent); characterised through `WeightSheet.RowsToWeights`'s lemmas and `WeightSheet.GetRecentWeightData` |
| WeightSheet.GetRecentWeightData | etl/ctbus-weight-gdoc-api/weight_api_lib/app.py:44-50 | a failure of this year's extraction, else of last year's, is reported; otherwise the keys are the union of both years, last year's value wins on a shared date and this year's values stand elsewhere |
| HealthIngest.BindParams | etl/ctbus-health-ingest/ctbus_health_ingest/lambda/index.py:38 | fails exactly when `id` or `value` is missing, or `timestamp` is missing as written; the error names the first missing key in the order `id`, `value`, `timestamp`; on success the tuple is `(id, value, timestamp)` as written and `(id, value)` with the two intended values |
| HealthIngest.InsertWeight | etl/ctbus-health-ingest/ctbus_health_ingest/schema_init_lambda/index.py:32-35 | an insert succeeds only with two parameters, a weight in (0, 300) and a date not yet present, so it keeps the table's constraints |
| HealthIngest.InsertRecord | etl/ctbus-health-ingest/ctbus_health_ingest/lambda/index.py:35-39 | one iteration of the insert loop (parse the body, bind, execute), defined by its body; characterised by `HealthIngest.InsertRecordTwoValues` and `HealthIngest.AsWrittenBatchAlwaysFails` |
| HealthIngest.Stage | etl/ctbus-health-ingest/ctbus_health_ingest/lambda/index.py:34-39 | the insert loop as a fold over the records that stops at the first failure, defined by its body; characterised by `HealthIngest.StageFailureSticks`, `HealthIngest.StageKeepsTableValid`, `HealthIngest.StageOneRowPerRecord` and `HealthIngest.TwoValueBatchSucceedsIff` |
| HealthIngest.StageFailureSticks | etl/ctbus-health-ingest/ctbus_health_ingest/lambda/index.py:34-39 | the first failing record fails the whole batch with its own error |
| HealthIngest.StageKeepsTableValid | etl/ctbus-health-ingest/ctbus_health_ingest/lambda/index.py:34-39 | the open transaction keeps `date` unique and every weight in (0, 300) |
| HealthIngest.StageOneRowPerRecord | etl/ctbus-health-ingest/ctbus_health_ingest/lambda/index.py:34-39 | a staged batch holds exactly one row per record, in record order, each the row its record asks for |
| HealthIngest.AsWrittenBatchAlwaysFails | etl/ctbus-health-ingest/ctbus_health_ingest/lambda/index.py:37-38 | as written, every non-empty batch fails on its first record: the first record's insert fails, with a malformed body, a missing key or a three-for-two argument count, and the batch fails with that error |
| HealthIngest.InsertRecordTwoValues | etl/ctbus-health-ingest/ctbus_health_ingest/lambda/index.py:35-39 | with the two intended values, a record is inserted exactly when it parses to a row the CHECK accepts on a date not yet present |
| HealthIngest.HasDateAppend | etl/ctbus-health-ingest/ctbus_health_ingest/schema_init_lambda/index.py:34 | a date is in the committed rows plus the transaction's exactly when it is in one of them |
| HealthIngest.TwoValueBatchSucceedsIff | etl/ctbus-health-ingest/ctbus_health_ingest/lambda/index.py:34-39 | with the two intended values, a batch goes through exactly when every record parses to a weight in (0, 300) on a date neither stored nor asked for by an earlier record |
| HealthIngest.RedeliveredRecordFailsBatch | etl/ctbus-health-ingest/ctbus_health_ingest/lambda/index.py:37 | a record whose date is already stored fails its whole batch: the bare INSERT is not idempotent |
| HealthIngest.Database.Connect | etl/ctbus-health-ingest/ctbus_health_ingest/lambda/index.py:25-31 | the connection succeeds exactly when the server is reachable |
| HealthIngest.Database.Execute | etl/ctbus-health-ingest/ctbus_health_ingest/lambda/index.py:36-39 | one insert against committed plus pending rows: on success the row is appended to the transaction, and the table's constraints hold |
| HealthIngest.Database.Commit | etl/ctbus-health-ingest/ctbus_health_ingest/lambda/index.py:41 | on success the pending rows are appended to the committed ones; on failure they are discarded; the constraints hold either way |
| HealthIngest.Database.Abandon | etl/ctbus-health-ingest/ctbus_health_ingest/lambda/index.py:53-54 | leaving on an exception discards the uncommitted rows and keeps the committed ones |
| HealthIngest.Queue.DeleteMessage | etl/ctbus-health-ingest/ctbus_health_ingest/lambda/index.py:46-49 | an accepted delete records its receipt handle; a refused one changes nothing |
| HealthIngest.Handles | etl/ctbus-health-ingest/ctbus_health_ingest/lambda/index.py:48 | the receipt handles of the records, in order |
| HealthIngest.AckedCount | etl/ctbus-health-ingest/ctbus_health_ingest/lambda/index.py:45-49 | the number of records, from the first, whose delete is accepted before the first refused delete |
| HealthIngest.StageBatch | etl/ctbus-health-ingest/ctbus_health_ingest/lambda/index.py:34-39 | the insert loop leaves in the transaction exactly the rows `Stage` computes, or stops with `Stage`'s error |
| HealthIngest.Acknowledge | etl/ctbus-health-ingest/ctbus_health_ingest/lambda/index.py:45-49 | the delete loop deletes the records' handles in order up to the first refused one, and succeeds exactly when none is refused |
| HealthIngest.HandlerError | etl/ctbus-health-ingest/ctbus_health_ingest/lambda/index.py:21-54 | the exception the handler's `except` clause catches, if any, in program order (connect, insert loop, commit, delete loop), defined by its body; characterised by `HealthIngest.LambdaHandler`, `HealthIngest.TwoValueHandlerSucceedsIff` and `HealthIngest.AsWrittenHandlerAlwaysFails` |
| HealthIngest.AsWrittenHandlerAlwaysFails | etl/ctbus-health-ingest/ctbus_health_ingest/lambda/index.py:37-38 | as written, the handler catches an exception on every non-empty batch and answers 500, so its own delete loop deletes nothing |
| HealthIngest.TwoValueHandlerSucceedsIff | etl/ctbus-health-ingest/ctbus_health_ingest/lambda/index.py:21-54 | with the two intended values, the handler succeeds exactly when the server is reachable, every record is insertable, the commit goes through and every delete is accepted |
| HealthIngest.EmptyBatch | etl/ctbus-health-ingest/ctbus_health_ingest/lambda/index.py:34-51 | an empty batch stages no row and succeeds exactly when the connection and the commit do |
| HealthIngest.LambdaHandler | etl/ctbus-health-ingest/ctbus_health_ingest/lambda/index.py:21-54 | 200 exactly when no exception occurs, with the exception reported otherwise. Rows reach the table only through the single commit, all of the batch or none. No message is deleted unless the commit succeeded. After the commit, the handles are deleted in record order up to the first refused one. The table's constraints hold throughout |

## Left out

- Credential retrieval from SSM and Secrets Manager, and the construction of the Google API clients, are foreign calls. The fetched document, the fetched value range and the database credentials are inputs.
- `json.loads` and `json.dumps` are not modelled. A message body is parsed by a given partial function into a record whose keys may be missing. The diet log and the weight map are returned as values, not as JSON text.
- `DietDoc.GetRecentDietData` and `WeightSheet.GetRecentWeightData` return Dafny maps, which have no key order. A Python dict keeps first-insertion order and `json.dumps` emits that order. A repeated date header keeps its first position when its entries are reset, and `data.update(...)` keeps this year's keys first and appends last year's new keys. That order is not modelled.
- `DietDoc.IsDateHeader` and `DietDoc.IsTimeEntry` treat `\d` as the ASCII digits `0`-`9`. Python's `\d` also matches other Unicode decimal digits.
- The diet scan's credential handling and document fetch (`etl/ctbus-diet-gdoc-api/diet_api_lib/app.py:25-40`) are not modelled. `DietDoc.LambdaHandler` receives the fetch's outcome as a parameter.
- The dead `current_date = datetime.datetime.now()` of the diet scan is not modelled. Nothing restricts the scan to recent dates.
- `datetime.now()` is not modelled: the current year is a parameter of `WeightSheet.GetRecentWeightData`, and `get_weight_data_for_year`'s default year is not modelled.
- `float()` is a given partial parse. Floating-point values are `real`, and the model treats the table's `REAL` column as exact. The column is a 4-byte float in the database, and its rounding at the bounds is not modelled: a value just under 300 rounds to 300.0 there and fails the `CHECK`, while `HealthIngest.WeightAllowed` accepts it.
- The `DATE` cast is a given partial function. A cast failure and a value of the wrong kind are reported as distinct errors, not as psycopg2's exact exception types.
- `json_credentials_to_str`'s file reading is left out; only its quote swap is kept.
- The weight `lambda_handler` (`etl/ctbus-weight-gdoc-api/weight_api_lib/app.py:62-68`) only serialises the merged map. It catches no exception, so it adds nothing to `WeightSheet.GetRecentWeightData`.
- The Bedrock client in the ingest lambda and the CDK stack are left out. The stack is deployment configuration; its SQS event source uses a batch size of 1.
- `HealthIngest.Queue.DeleteMessage`: `Queue.deleted` records only the handler's own `delete_message` calls. The SQS event-source mapping counts a normal return as success and deletes the batch itself, even after a 500 reply. That deletion is not modelled, so a record that fails the as-written insert is lost, not redelivered.
- `get_db_credentials()` runs before the `try` (`etl/ctbus-health-ingest/ctbus_health_ingest/lambda/index.py:22`), so its exceptions escape the handler. It is not modelled; `HealthIngest.LambdaHandler` starts once the credentials are read.
- Closing the cursor and the connection is not modelled. On an exception the connection is left open, and the model keeps only that its uncommitted rows are discarded.
- The schema initialisation lambda is not modelled except for the weight table's `UNIQUE` and `CHECK` constraints, which are the database's invariant. The diet and fdc tables are unused by the core.
- `HealthIngest.Database.Connect` and the other outcomes of external calls are fixed per object. The model does not capture failures that vary over time, or concurrent invocations sharing the table.
- The diet scan's inner loop is a separate method, `DietDoc.ScanParagraph`, called from the outer loop of `DietDoc.GetRecentDietData`; the loops and their order are those of the source.

## Findings

| source | as written | input that shows it | evidently intended | confidence | as-written member | corrected member |
|---|---|---|---|---|---|---|
| etl/ctbus-health-ingest/ctbus_health_ingest/lambda/index.py:37-38 | the INSERT has two `%s` placeholders, but the tuple binds three values (`id`, `value`, `timestamp`); psycopg2 refuses the statement, so every non-empty batch fails, the handler answers 500 and its own delete loop never runs; the row is never written | a batch of one record whose body is `{"id": "2024-06-05", "value": 180.2, "timestamp": "2024-06-05T08:00:00"}` | bind only `(id, value)` to `(date, weight)` | high; not executed | HealthIngest.AsWrittenBatchAlwaysFails | HealthIngest.TwoValueBatchSucceedsIff |
