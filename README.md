# CSV import and reconciliation, modelled in Dafny

This project models the import run of the membership-data importer
(`Importer::csv_to_database`). One run does four things in order:

- **Reads the CSV snapshot.** The header line is skipped. Each data row is mapped by position onto
  twelve columns of the staging table `pmc_db_tmp`:
  - text fields lose their single quotes, commas and double quotes;
  - the two date fields go through the date formatter;
  - the run timestamp goes into `created_at`.
- **Stages the rows.** The encoded rows are written as bulk `INSERT` statements:
  - a statement is sent before row 0, 500, 1000, …, and its result is ignored;
  - the statement sent before row 0 is the bare statement head, with no tuple;
  - one last statement is sent after the file ends, if there was any data row;
  - only a failure of that last statement stops the run (its `or die`).
- **Promotes the staging table.** `REPLACE INTO pmc_db (SELECT * FROM pmc_db_tmp)` upserts the staged
  rows by key into the live table `pmc_db`. Then the staging table is truncated.
- **Overlays the manual corrections.** Every edit-log entry is replayed, in the order the server returns
  the log, as one `UPDATE`
  of the listed fields; an entry with an empty mapping issues no statement. Then every key of the
  deletion table is deleted in one set-based `DELETE`.

Modules, leaf first:

- `RowDecoder` (`row_decoder.dfy`):
  - the sanitizer and the positional row encoding;
  - the quoted tuple text of a row, with `EncodeRow` as the imperative inner loop;
  - a reader of quoted literals, which the round-trip lemmas use.
- `InsertStatement` (`insert_statement.dfy`):
  - the text of a bulk `INSERT`: the head, then the tuples;
  - how the database reads such a statement: the rows it carries, or malformed;
  - the proof that every statement the importer builds carries exactly its batch.
- `BatchStager` (`batch_stager.dfy`):
  - the 500-row partition of the rows into the statements sent;
  - what the staging table receives when some statements are rejected;
  - the read loop's progress, as a specification function.
- `Promoter` (`promoter.dfy`): `REPLACE INTO` as a keyed upsert of the staged rows in the order they
  were inserted. It has a reference reading, `Lookup`, for each key.
- `Overlay` (`overlay.dfy`): edit replay, with a reference reading `LastWrite` for each column, and the
  deletion.
- `Importer` (`importer.dfy`):
  - the class `Database`, with fields `staging`, `live` and `flushed` (the log of batches sent) and a
    constant `insertHead`;
  - the imperative methods of the run: the read loop, the flushes, promotion, edit replay, deletion
    and the whole run.

The environment is passed in as parameters:

- the storage's answers: the ordinals of the rejected INSERT statements, whether the `REPLACE`
  fails, and which edit-log entries the server refuses as an `UPDATE` (`refuses`). In strict mode a
  value the column's type does not take, a value longer than its column, or an empty id makes the
  statement fail; the loop ignores the failure and goes on;
- the `id` the staging table holds for the staged row at each position (`idOf`). The INSERT
  statements never write `id`, so the key is not a function of the row's values;
- the run timestamp (`now`);
- the date formatter (`formatDate`, which stands for `strftime(strtotime(·))`).

Behaviours of the code that the model keeps as they are:

- the staging table is not cleared at the start of a run;
- the failure of a flush inside the read loop is ignored, and only the final flush is fatal;
- a failed `REPLACE` still truncates the staging table;
- promotion is an upsert: live rows whose key is not staged stay;
- the whole edit log is replayed on every run.

Failures are modelled as `mysqli_query` returning false, which is mysqli's silent error mode; a
failure never raises an exception. The failures modelled are those of the bulk INSERTs (`rejected`),
of the `REPLACE` (`replaceFails`) and of the `UPDATE`s (an unknown column, or `refuses`).

The edit log is read by a `SELECT` without `ORDER BY` (line 189), so the sequence of entries the
model replays stands for the order the server returns, whatever that is. The staging table is also
read without `ORDER BY` (line 184), but the model keeps it in insertion order and upserts it in that
order (see `Importer.Database.Promote` under "## Left out").

## Model

| member | source | states |
|---|---|---|
| RowDecoder.Strip | importer.php:167 | the result holds no occurrence of the character, every other character keeps its count, and a string without it is unchanged |
| RowDecoder.StripAppend | importer.php:167 | deleting a character from a concatenation deletes it from each part, so what survives keeps its order |
| RowDecoder.StripChar | importer.php:167 | a single character survives deletion exactly when it is not the deleted one |
| RowDecoder.Sanitize | importer.php:167 | the result holds no single quote, comma or double quote, every other character keeps its count, and a value without them is unchanged |
| RowDecoder.SanitizeAppend | importer.php:167 | the sanitizer cleans a concatenation part by part, so the kept characters stay in their order |
| RowDecoder.SanitizeChar | importer.php:167 | a single character is deleted exactly when it is a single quote, comma or double quote; with SanitizeAppend this fixes the sanitized text completely |
| RowDecoder.Cell | importer.php:164-167 | a cell the row has is read as it is, a column the row does not have reads as the empty string |
| RowDecoder.FieldValue | importer.php:163-168 | a date field is the formatted cell; any other field is the sanitized cell, free of delimiters and unchanged when it held none |
| RowDecoder.RowValues | importer.php:158-172 | an encoded row has one value per column and ends with the run timestamp |
| RowDecoder.RowValuesByPosition | importer.php:128-172 | an encoded row has 13 values taken by position: text field j is cell j sanitized (empty for a short row, unchanged when it holds no delimiter), date field j is cell j formatted, the run timestamp last |
| RowDecoder.Quote | importer.php:169 | a literal is two characters longer than its value and begins and ends with a single quote |
| RowDecoder.TupleText | importer.php:169 | the tuple text is empty exactly for no value, and otherwise begins and ends with a quote |
| RowDecoder.TupleTextSnoc | importer.php:169 | appending a value appends its quoted literal, after a comma unless it is the first |
| RowDecoder.ReadItems | importer.php:169 | a literal list the database reads is non-empty and holds no single quote, and the text left after it is shorter than the input |
| RowDecoder.TupleTextReadsBack | importer.php:169-173 | round trip: quote-free values joined into tuple text read back as exactly those values, in order, and reading resumes right after the tuple text |
| RowDecoder.RowValuesQuoteFree | importer.php:163-172 | with a quote-free clock and date formatter, every encoded value is quote-free, so every row can be read back |
| RowDecoder.EncodeStep | importer.php:169 | each pass of the inner loop extends the tuple text of the fields before it by one literal |
| RowDecoder.EncodeRow | importer.php:158-172 | the string built field by field is the tuple text of the row's encoded values |
| RowDecoder.EncodeDataRows | importer.php:124-150 | the header line is not encoded: a file of n > 0 lines gives n - 1 rows, and row i is the encoding of line i + 1 |
| InsertStatement.Implode | importer.php:142 | the field names joined by commas, first name first |
| InsertStatement.ImplodeSnoc | importer.php:142 | joining one more name appends a comma and that name |
| InsertStatement.InsertHead | importer.php:145 | the head every INSERT into the staging table starts with |
| InsertStatement.InsertHeadColumns | importer.php:142-145 | the INSERT head names the staging table and lists its 13 columns in tuple order |
| InsertStatement.StatementText | importer.php:145-173 | every statement begins with the INSERT head, and is the bare head exactly for no row |
| InsertStatement.ValuesText | importer.php:155-173 | the VALUES list is empty exactly for no row, and otherwise ends with a closing parenthesis |
| InsertStatement.StatementSnoc | importer.php:155-173 | adding a row appends its parenthesised tuple to the statement, after a comma unless it is the first |
| InsertStatement.ValuesTextReadsBack | importer.php:155-173 | round trip: a non-empty batch of well-formed rows written as a VALUES list reads back exactly, in order |
| InsertStatement.BareHeadMalformed | importer.php:152-154 | the bare head sent before the first row, with its semicolon, carries no tuple and is malformed |
| InsertStatement.StatementReadsBack | importer.php:145-178 | round trip: a statement of well-formed rows, with or without the final semicolon, reads back as exactly its rows; the statement of no row is malformed |
| InsertStatement.CarriedRows | importer.php:152-178 | the database takes exactly the batch from its statement, and the statement is well-formed exactly when the batch is not empty |
| InsertStatement.ReadStatement | importer.php:153 | a statement the database accepts carries at least one row |
| BatchStager.Chunks | importer.php:152 | there is no batch exactly when there is no row |
| BatchStager.ChunkSizes | importer.php:152 | the rows are cut into ceil(n / 500) batches, all of 500 rows except a last one of 1 to 500 |
| BatchStager.ConcatChunks | importer.php:152 | the batches concatenate back to the rows |
| BatchStager.Accepted | importer.php:153 | the staging table receives at most the rows of all the batches |
| BatchStager.Flushes | importer.php:149-179 | no statement is sent for no data row; otherwise the first statement sent holds no row |
| BatchStager.FlushesPartitionRows | importer.php:149-179 | the batches sent, concatenated in order, are exactly the rows: none lost, duplicated or reordered |
| BatchStager.FlushSizes | importer.php:149-179 | (n - 1) / 500 + 2 statements for n > 0 rows: the empty first one, full 500-row batches, then a final one of 1 to 500 rows |
| BatchStager.ChunksAppend | importer.php:152 | cutting at a multiple of 500 rows splits the batches at the same place |
| BatchStager.AcceptedSnoc | importer.php:153 | one more statement adds its rows to the staging table unless it is rejected |
| BatchStager.ProgressAfter | importer.php:150-175 | once any row has been read, the pending statement holds at least one row |
| BatchStager.ProgressStep | importer.php:152-174 | one pass of the loop: at a multiple of 500 the pending batch is sent and a new one begun, then the row joins the pending batch |
| BatchStager.LastBatchStart | importer.php:152 | the last batch of n rows begins at the greatest multiple of 500 below n |
| BatchStager.ProgressShape | importer.php:149-175 | after the loop, the batches sent are the empty first one and the whole 500-row batches, and the pending batch is the rows since the last boundary |
| BatchStager.LoopThenFinalFlush | importer.php:149-179 | the batches sent by the loop followed by the final flush are exactly the partition of the rows |
| BatchStager.FinalFlushAccepted | importer.php:177-179 | the final flush is numbered after the loop's flushes and completes what the staging table receives from the whole partition |
| BatchStager.AcceptedAll | importer.php:150-179 | with no statement rejected, the staging table receives every row in file order |
| BatchStager.ConcatSplit | importer.php:150-179 | the rows of all batches are those before one batch, that batch, then those after it |
| BatchStager.AcceptedDropsOne | importer.php:153 | one rejected statement loses exactly its own rows: staging receives the batches before it and after it, in order |
| BatchStager.InLoopRejectionLosesBatch | importer.php:152-178 | a rejected in-loop statement silently loses 500 rows; the run still goes on, as StageRows aborts only on the final ordinal |
| Promoter.Upsert | importer.php:184 | every live key and every staged row's id is present after REPLACE INTO, and the last staged row's id holds that row |
| Promoter.UpsertLookup | importer.php:184 | after REPLACE INTO, every key holds the last staged row whose id it is, otherwise its live row, and no other key appears |
| Promoter.LookupStagedIgnoresLive | importer.php:184 | for a staged key the result does not depend on the live row it replaces |
| Promoter.UpsertKeepsUnstaged | importer.php:184 | a live row whose key is not staged is kept unchanged |
| Promoter.UpsertLastWins | importer.php:184 | a staged id ends up holding the last staged row with that id, so staged rows with equal values but different ids are all kept |
| Promoter.UpsertKeys | importer.php:184 | the keys after promotion are the old live keys plus the staged keys |
| Promoter.UpsertIdempotent | importer.php:184 | promoting the same staging contents twice gives the same live table as once |
| Overlay.Effective | importer.php:196-199 | an entry changes the table only when its mapping is not empty, every field it names is a column and the server does not refuse the statement |
| Overlay.SetFields | importer.php:195-199 | the listed columns take their new values, all others keep theirs |
| Overlay.ApplyEdit | importer.php:195-199 | an UPDATE changes only its target row, leaves the keys unchanged, and does nothing for an empty mapping, an unknown column, a refused statement or a missing id |
| Overlay.ApplyEditIdempotent | importer.php:195-199 | replaying an entry twice gives the same table as replaying it once |
| Overlay.Replay | importer.php:189-202 | replay keeps the keys and the width of every row |
| Overlay.ReplayStep | importer.php:192-201 | replaying one more entry applies it to the table replayed so far |
| Overlay.ReplayAt | importer.php:189-202 | after replay, every column holds the value of the last entry writing it, otherwise its old value |
| Overlay.ReplayLastWins | importer.php:189-202 | later entries override earlier ones on the same key and column |
| Overlay.ReplayKeepsUnwritten | importer.php:189-202 | a column no effective entry writes keeps its value |
| Overlay.ReplayIdempotent | importer.php:189-202 | replaying the whole log again, as every run does, changes nothing |
| Overlay.Purge | importer.php:204 | the deletion removes exactly the marked keys and leaves every other row unchanged |
| Overlay.Surviving | importer.php:189-204 | the entries whose target is not deleted, no more and no less |
| Overlay.SurvivingAppend | importer.php:189-204 | dropping the entries to deleted keys works part by part, so the surviving entries keep their order and number |
| Overlay.SurvivingOne | importer.php:189-204 | a single entry survives exactly when its target is not deleted |
| Overlay.DeletedEditsLeaveNoTrace | importer.php:189-204 | edits to keys deleted afterwards leave no trace in the final table |
| Overlay.PurgeCommutesWithReplay | importer.php:189-204 | deleting before the replay would give the same table as deleting after it |
| Importer.Reconciled | importer.php:184-204 | a completed run leaves no deleted key, every surviving live key, and every staged key not deleted when REPLACE succeeds |
| Importer.ReconciledAt | importer.php:184-204 | each column of a surviving key holds the last edit the server took for it, otherwise the last staged row's value, otherwise the old live value |
| Importer.AddTuple | importer.php:158-173 | encoding a row and appending its tuple gives the statement of the pending batch plus that row, still well-formed |
| Importer.Database.constructor | importer.php:145 | the database reads INSERT statements against the head the importer builds them from |
| Importer.Database.Flush | importer.php:153 | sending a statement logs the rows it carries and stages them unless rejected; it succeeds exactly when it is well-formed and not rejected |
| Importer.Database.SendBatch | importer.php:177-178 | sending the statement of a batch stages exactly that batch unless rejected, and succeeds exactly when the batch is non-empty and not rejected |
| Importer.Database.FlushPending | importer.php:152-154 | the in-loop flush logs the pending batch, stages it unless its ordinal is rejected, and ignores the result |
| Importer.Database.TakeRow | importer.php:152-174 | one pass of the read loop moves the text, the flush count, the log and the staging table to the loop's progress after one more row |
| Importer.Database.ReadLoop | importer.php:149-175 | after the loop, the statement text, the flush count, the log and the staging table are those of the loop's progress over all data rows |
| Importer.Database.StageRows | importer.php:149-179 | the log holds exactly the 500-row partition, staging gains the accepted batches, and the run aborts exactly when the final statement is rejected |
| Importer.Database.Promote | importer.php:184-186 | live becomes the upsert of the staged rows unless REPLACE fails, and staging is emptied either way |
| Importer.Database.UpdateRow | importer.php:198-199 | one UPDATE has the effect of replaying its edit: nothing when the server refuses it or a column is unknown |
| Importer.Database.ApplyEdits | importer.php:189-202 | the edit-log loop leaves live equal to the replay of the whole log, skipping empty mappings and going on past refused statements |
| Importer.Database.DeleteMarked | importer.php:204 | live loses exactly the marked keys |
| Importer.Database.Run | importer.php:101-205 | an aborted run leaves live untouched and the staged rows in place; otherwise staging is empty and live is the reconciled table, refused UPDATEs included |

## Left out

- File handling is not modelled. The ZIP extraction, the existence checks with `exit(1)` and
  `fopen`/`fclose` are outside the model: the CSV arrives as a sequence of lines, each already split
  into fields.
- `fgetcsv` quoting and line splitting are not modelled. A blank line is a row with one empty field.
- `ini_set`, logging to the log file, the connection set-up, `SET NAMES` and `env.php` are not modelled.
- `date()` and `strftime(strtotime(·))` are parameters. The run timestamp and the date formatter are
  assumed never to produce a single quote (`QuoteFreeClock`); the formats the importer uses never do.
  An unparsable date gives whatever the formatter returns for it.
- MySQL backslash escapes inside string literals are not modelled. The reader takes every character up
  to the next single quote literally, although in MySQL a text cell ending in a backslash would escape
  its closing quote and make its statement malformed.
- The storage engine's reasons for rejecting a well-formed INSERT are not modelled. They are
  represented by the set of rejected statement ordinals.
- `REPLACE INTO` conflicts on unique keys other than `id` are not modelled. How the staging table
  assigns `id` (for example, auto-increment) is not modelled; it is the parameter `idOf`.
- The failure of the `TRUNCATE`, of the edit-log query and of the `DELETE` are not modelled: each is
  taken to succeed.
- `json_decode` is not modelled. An entry whose mapping does not decode is an entry with an empty
  mapping.
- A field name that is not a column makes an `UPDATE` fail and is modelled as no change. An edit that
  sets `id` re-keys a row in MySQL; in the model `id` is not one of the 13 columns, so such an edit
  changes nothing.
- Importer.Database.ApplyEdits: a JSON value that decodes to an object makes the interpolation at
  line 196 throw, which ends the run before the `DELETE`, and an array is written as the text
  `Array`. The model takes every value as the string the statement carries.
- Importer.Database.ApplyEdits: a refusal is a function of the entry (`refuses`). A failure that
  depends on something else, such as a lock wait timeout, is not modelled.
- An edit value containing a single quote, which would change the meaning of the `UPDATE` text, is
  not modelled: values are set as given.
- Exception mode is not modelled: the model assumes mysqli's silent error mode, where a failing query
  returns false. Under PHP 8.1's default exception mode, three things change:
  - the bare-head statement at line 153 throws at the first data row;
  - a failing `REPLACE` at line 184 skips the `TRUNCATE`;
  - a failing `UPDATE` at line 199 ends the overlay.
- Overlay.Effective: field names are compared with the column names exactly. MySQL column names are
  case-insensitive, so an entry naming `Verify` updates the row in MySQL but changes nothing in the
  model.
- Importer.Database.Promote: the staged rows are upserted in the order they were inserted. The
  `SELECT * FROM pmc_db_tmp` inside the `REPLACE` at line 184 has no `ORDER BY`, so the server may
  return them in another order. That order decides the result only when two staged rows share an
  id, which picks the row that wins (`UpsertLastWins`).
