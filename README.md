# rc_sqlite3: a verified model of the SQLite persistence driver

`rc_sqlite3.c` is a persistence driver that stores schemaless JSON records in
SQLite tables. This project models its core in Dafny:

- the type inferencer (`jsontype2sqltype`), which picks a column type for a value;
- the value serializer (`write_db_value`), which writes a value as an SQL literal;
- the six statement builders: `sqlite_create_table`, `sqlite_drop_table`,
  `sqlite_insert_new`, `sqlite_update_id`, `sqlite_delete_id` and `sqlite_select`;
- the five write operations (`dba_create_table`, `dba_drop_table`,
  `dba_create_record`, `dba_update_record`, `dba_delete_record`), including
  what each does with the record's `id`;
- `one_step`, which runs a statement with a single step;
- the row decoder (`sqlrow2json`);
- the load pipeline (`dba_load_table`): it streams a SELECT's rows through a
  caller's callback, which answers with a negative value (abort), 0 (skip) or
  a positive value (append);
- the process-wide flag `dba_open` uses to configure the engine only once.

The statement builders, the decoder and the load keep the source's form.
CREATE TABLE, INSERT, UPDATE and SELECT are methods that append to a text
buffer in a loop using the source's separator counter. DROP TABLE and DELETE
build their text in one step, as the source does. `sqlrow2json` sets fields
on a record in a loop over the columns, and `dba_load_table` steps the
statement in a loop. Each method is proved equal to a declarative
specification function, and the properties are lemmas about those functions.

Modules, in dependency order:

| file | module | contents |
|---|---|---|
| wrappers.dfy | Wrappers | `Option` |
| json_values.dfy | JsonValues | the closed JSON value variant; records as ordered `(key, value)` sequences; lookup, delete and set as the JSON library does them; `strcasecmp` equality; `kw_get_int` |
| sql_text.dfy | SqlText | `%q` quoting and how SQL reads a quoted literal back; `%lld` printing and its parser; joining with a separator |
| value_serializer.dfy | ValueSerializer | `jsontype2sqltype`, `write_db_value`, reading a written literal back |
| statement_builder.dfy | StatementBuilder | the six statement builders |
| row_decoder.dfy | RowDecoder | `sqlrow2json` |
| load_pipeline.dfy | LoadPipeline | `one_step`, `dba_load_table` |
| record_ops.dfy | RecordOps | the create, drop, insert, update and delete operations |
| lifecycle.dfy | Lifecycle | the one-shot `__sqlite_initialized__` flag |

Some routines are not part of this model. They come in as parameters:

- **`Externals`** holds C's `%.f` and `%f` formatting of doubles,
  `json_dumps` and `nonlegalbuffer2json`, each as a total function.
- **`Engine`** describes SQLite:
  - whether `sqlite3_prepare_v2` accepts a statement;
  - the sequence of results `sqlite3_step` returns for it;
  - `sqlite3_last_insert_rowid`.

  Stepping past the end of the given results reads as SQLITE_DONE.
- **A result row** is a sequence of `Column`s. Each gives the column's name,
  its declared type, and what each column accessor returns.

## Model

| member | source | states |
|---|---|---|
| ValueSerializer.JsonTypeToSqlType | src/rc_sqlite3.c:540-551 | Total, and the result is one of TEXT, INTEGER, REAL, BLOB. TEXT exactly for strings, INTEGER exactly for integers, REAL exactly for reals, BLOB exactly for booleans, null, arrays and objects. |
| ValueSerializer.WriteDbValue | src/rc_sqlite3.c:625-685 | Appends exactly the value's literal to the buffer and leaves the rest unchanged. The literal is: strings quoted with `%q`; integers in decimal; reals through `%.f`; true as `1`; false and null as `0`; arrays and objects as their quoted compact dump. The status is 0 for every value. |
| ValueSerializer.ReadValueLiteral | src/rc_sqlite3.c:625-685 | Injection safety: SQL reads every written literal back as one literal ending where the serializer stopped. Strings, arrays and objects come back with their exact content, whatever quotes they hold. Integers come back as their decimal text. |
| ValueSerializer.IntegerLiteralRoundTrip | src/rc_sqlite3.c:643-645 | An integer literal parses back to the same integer. |
| SqlText.ReadEscaped | src/rc_sqlite3.c:629-631 | What `%q` quoting produces, followed by a closing quote, reads back as exactly the original string, and the literal ends at that closing quote. |
| SqlText.EscapeLength | src/rc_sqlite3.c:629-631 | Quoting adds one character per quote. The quoted text holds exactly twice as many quotes as the original. |
| SqlText.EscapeNoQuotes | src/rc_sqlite3.c:629-631 | A string without quotes is left unchanged by quoting. |
| SqlText.DecimalRoundTrip | src/rc_sqlite3.c:643-645 | Decimal printing of an integer is undone by decimal parsing. |
| SqlText.DecimalCharacters | src/rc_sqlite3.c:643-645 | A printed integer is nonempty and holds only a minus sign and digits. |
| StatementBuilder.SqliteCreateTable | src/rc_sqlite3.c:556-606 | The text is `CREATE TABLE IF NOT EXISTS <t> (`, then one `<key> <type>` per field in order joined by `, `, then the primary-key clause, then `);`. |
| StatementBuilder.ColumnDefinitionTypes | src/rc_sqlite3.c:573-592 | One column definition per field, each naming its field and one of the four column types. |
| StatementBuilder.SqliteDropTable | src/rc_sqlite3.c:611-620 | The text is `DROP TABLE <t> ;`, and the table name is written exactly as given. |
| StatementBuilder.SqliteInsertNew | src/rc_sqlite3.c:690-751 | The text is `INSERT INTO <t> (`, then the keys in order joined by `, `, then `) VALUES (`, then the values' literals in the same order joined by `, `, then `);`. |
| StatementBuilder.InsertValuesReadBack | src/rc_sqlite3.c:720-746 | The VALUES list reads back as exactly one literal per field, in field order, each carrying that field's value, and the list is closed by the builder's own `);`. There are as many literals as keys. |
| StatementBuilder.ReadJoinedLiterals | src/rc_sqlite3.c:724-744 | A nonempty list of literals joined by `, ` reads back item by item up to the closing parenthesis. |
| StatementBuilder.JoinedLiteralsStart | src/rc_sqlite3.c:724-746 | A nonempty VALUES list starts with a literal, never with the closing parenthesis. |
| StatementBuilder.SqliteUpdateId | src/rc_sqlite3.c:757-811 | The text is `UPDATE <t> SET `, then `<key> = <literal>` for each field whose key is not `id` in any letter case, in order and joined by `, `, then ` WHERE id=<id>;`. |
| StatementBuilder.UpdatableFields | src/rc_sqlite3.c:780-783 | The fields that may be set are never more than the record's fields. |
| StatementBuilder.UpdatableFieldsExactly | src/rc_sqlite3.c:780-783 | A field is set exactly when it is a field of the record whose key differs from `id` under `strcasecmp`. |
| StatementBuilder.UpdateNeverSetsId | src/rc_sqlite3.c:780-790 | No SET clause names `id` in any letter case, and each clause is its field's key, ` = ` and its value's literal. |
| StatementBuilder.UpdateIgnoresIdField | src/rc_sqlite3.c:306-308 | Deleting `id` from the record before building, as `dba_update_record` does, does not change the statement. |
| StatementBuilder.UpdateWithoutFields | src/rc_sqlite3.c:770-806 | A record with no field other than id ones still yields an UPDATE, with an empty SET list: `UPDATE <t> SET  WHERE id=<id>;`. |
| StatementBuilder.WhereIdReadBack | src/rc_sqlite3.c:806 | The WHERE clause is ` WHERE id=`, the id in decimal, and `;`, and the id parses back from it. |
| StatementBuilder.UpdateEndsWithWhereId | src/rc_sqlite3.c:806 | Every UPDATE text ends with the WHERE clause for its id, whatever the record holds. |
| StatementBuilder.SqliteDeleteId | src/rc_sqlite3.c:817-829 | The text is exactly `DELETE FROM <t> WHERE id=<id>;`. |
| StatementBuilder.SqliteSelect | src/rc_sqlite3.c:834-875 | The text is `SELECT * FROM <t> `, then for a nonempty filter ` WHERE ` and one predicate per filter field with ` AND ` before every field after the first, then ` ;`. An integer, string or real field gives `<key>=<value>`; a field of any other kind gives no text, though its ` AND ` is still written. An empty filter gives `SELECT * FROM <t>  ;`. |
| StatementBuilder.SelectFilterStringNotEscaped | src/rc_sqlite3.c:861-862 | Filter strings are embedded without quoting. The literal SQL reads ends at the string's first quote, and the rest of the string is read as statement text. |
| RowDecoder.DecodeColumn | src/rc_sqlite3.c:889-922 | A column contributes a field only if its declared type is INTEGER, REAL, TEXT or BLOB in any letter case. Each case holds whatever the letter case of the declared type. An INTEGER column always contributes its integer. A REAL column contributes its real, and nothing when the engine's double is refused. A TEXT column contributes its text, and nothing when the text is NULL. A BLOB column contributes what `nonlegalbuffer2json` parses from it: nothing for a NULL blob or a blob the parser refuses. |
| RowDecoder.SqlRowToJson | src/rc_sqlite3.c:880-926 | The record built column by column equals the decoded row: each decoded column is set under its name, in column order. |
| RowDecoder.DecodeRowKeysFromColumns | src/rc_sqlite3.c:880-926 | Only column names appear as keys: every key of a decoded row is the name of a column that decoded to a value. |
| RowDecoder.DecodeRowKeysCoverColumns | src/rc_sqlite3.c:880-926 | Every column that decoded to a value has its name among the keys. A column that decodes to nothing adds nothing; DecodeColumn states which columns those are: an unknown type, a refused double, NULL text, a NULL blob or a blob the parser refuses. |
| RowDecoder.DecodeRowUnique | src/rc_sqlite3.c:880-926 | A decoded row never holds a key twice, even when two columns share a name. |
| RowDecoder.DecodeRowLastWins | src/rc_sqlite3.c:880-926 | A name maps to the value of the last column of that name that decoded. With distinct names, each decoded column is found under its own name. |
| RowDecoder.ScalarTypeRoundTrip | src/rc_sqlite3.c:540-551 | A string, integer or real stored in the column type the inferencer picks for it decodes back to the same value, given the engine returns what was stored. |
| JsonValues.SetKeys | src/rc_sqlite3.c:890-909 | Setting a field keeps the order of the existing keys and appends a new key at the end. |
| JsonValues.SetLookup | src/rc_sqlite3.c:890-909 | After setting, the key reads the new value, and every other key reads what it did before. |
| JsonValues.SetUnique | src/rc_sqlite3.c:890-909 | Setting keeps an object's keys distinct. |
| JsonValues.DeleteRemovesOnlyKey | src/rc_sqlite3.c:262 | Deleting a key removes exactly the fields with that key and keeps the others in order. |
| JsonValues.IdKeySpellings | src/rc_sqlite3.c:781 | A key equals `id` under `strcasecmp` exactly when it is `id`, `iD`, `Id` or `ID`. |
| LoadPipeline.OneStep | src/rc_sqlite3.c:475-535 | Returns 0 or -1. It returns 0 exactly when the statement prepares and its first step returns SQLITE_DONE; a row counts as a failure. The statement is finalized exactly when it was prepared. |
| LoadPipeline.DbaLoadTable | src/rc_sqlite3.c:374-470 | The result is the initial list (a new empty one when none is passed) followed by the accepted records, for a callback whose verdict may depend on every record handed to it before. A statement that does not prepare leaves the initial list unchanged. The statement is finalized on every exit after a successful prepare (lines 460 and 465). |
| LoadPipeline.Accepted | src/rc_sqlite3.c:430-447 | The load appends at most one record per step. |
| LoadPipeline.AcceptedStopsAt | src/rc_sqlite3.c:430-463 | Nothing is looked at from the first completion, step error or negative callback answer onwards, the answer being the one the callback gives after the rows before it. |
| LoadPipeline.AcceptedStopsAtFirst | src/rc_sqlite3.c:430-463 | The load over the whole step sequence equals the load over the steps before any stopping step. |
| LoadPipeline.NothingAccepted | src/rc_sqlite3.c:435-443 | A callback that never answers positively, whatever it was handed before, leaves the list unchanged. |
| LoadPipeline.AcceptedPassCallback | src/rc_sqlite3.c:432-444 | Every appended record is what the callback left of a decoded row that it answered positively, when handed that row after the rows before it. |
| LoadPipeline.AcceptedSplit | src/rc_sqlite3.c:430-447 | While no step stops the load, the load over all steps is the load over the first n steps followed by the load over the rest, with the callback handed the earlier rows first. |
| LoadPipeline.AcceptedComplete | src/rc_sqlite3.c:432-444 | Conversely, every row the callback answers positively before the load stops is appended, as the record the callback leaves. It comes right after the records appended for the rows before it, so records keep row order. |
| LoadPipeline.AllAccepted | src/rc_sqlite3.c:430-447 | When the callback accepts everything and leaves records unchanged, and every result is a row, followed by completion, the load appends every decoded row in order. |
| LoadPipeline.FirstRowsLoadsPrefix | src/rc_sqlite3.c:430-447 | A callback that counts the records handed to it, accepts the first `limit` and then aborts, loads exactly the first `limit` decoded rows, or all of them when there are fewer. |
| RecordOps.DbaCreateTable | src/rc_sqlite3.c:207-225 | Runs the CREATE TABLE text once. Returns 0 exactly when it runs to completion, otherwise -1. |
| RecordOps.DbaDropTable | src/rc_sqlite3.c:230-244 | Runs the DROP TABLE text once. Returns 0 exactly when it runs to completion, otherwise -1. |
| RecordOps.DbaCreateRecord | src/rc_sqlite3.c:249-293 | Inserts the record, with `id` deleted when `kw_get_int` reads it as 0. On success it returns the engine's last rowid as an unsigned 64-bit number; on failure it returns `(uint64_t)-1`. |
| RecordOps.InsertedId | src/rc_sqlite3.c:256-263 | The inserted record keeps its `id` exactly when `id` holds a nonzero integer. Every field named otherwise is inserted unchanged. |
| RecordOps.CreateSentinelIsRowidMinusOne | src/rc_sqlite3.c:281-292 | A successful insert whose rowid is -1 returns the same value as a failure. |
| RecordOps.AsUint64 | src/rc_sqlite3.c:292 | Conversion to `uint64_t` keeps nonnegative values and adds 2^64 to negative ones. |
| RecordOps.IdConversionRoundTrip | src/rc_sqlite3.c:306 | An id passed through the source's `uint64_t` variable and back to `json_int_t` is unchanged. |
| RecordOps.DbaUpdateRecord | src/rc_sqlite3.c:298-332 | The statement updates the record's non-id fields, addressed by the filter's id (0 when the filter has none). Returns 0 exactly when it runs to completion, otherwise -1. |
| RecordOps.DbaDeleteRecord | src/rc_sqlite3.c:337-369 | The statement is exactly the DELETE for the filter's id (0 when it has none). Returns 0 exactly when it runs to completion, otherwise -1. |
| Lifecycle.SqliteGlobals.ConfigureOnce | src/rc_sqlite3.c:167-170 | After the guarded block the flag is set, and the configuration call has been made exactly once, however often the block runs. |

## Left out

- SQLite itself is not modelled: preparing, stepping, finalizing, the last
  insert rowid and the column accessors. These are the given `Engine` and
  `Column` values. `finalized` records that the model's method would
  finalize; it does not model a statement handle.
- `Engine.steps` is a fixed sequence per statement. A table's contents
  changing between statements is not modelled. Each operation reads one
  statement's results, and `lastInsertRowid` is a single given value.
- `dba_open` and `dba_close` do file and engine I/O: `access`, `chmod`,
  `sqlite3_open_v2`, the foreign-key pragma and `sqlite3_close`. Only the
  one-time configuration flag is modelled.
- `sqlite3_config` and the error-log callback are not modelled; the call is
  counted, not performed.
- Formatting doubles with `%.f` and `%f` is not modelled. It is given as
  `Externals.fixedNoDecimals` and `Externals.fixedSixDecimals`.
- `json_dumps` and `nonlegalbuffer2json` are not modelled either. They are
  `Externals.dumpCompact` and `Externals.parseBuffer`.
- Reals are Dafny `real`, not IEEE doubles. A double the JSON library
  refuses (so `json_real` returns NULL) is a column whose `asReal` is None.
- ReadValueLiteral: for reals it relies on `PrintsBareReals`, the assumption
  that `%.f` output holds no quote, comma or closing parenthesis. This holds
  for C's output but is stated as a requirement, not proved.
- Every logging call (`log_error`, `log_info`, `log_debug_dump`) is left out.
  So is the `verbose` switch.
- The allocation-failure paths are left out: `gbuf_create` returning NULL,
  `sqlite3_mprintf` returning NULL, and the builders' early returns for them.
  Neither the serializer's "mprintf failed" branch nor the caller's
  "no buffer" branches are modelled.
- Reference counting (`KW_DECREF`, `JSON_INCREF`, `gbuf_decref`) and
  ownership transfer are left out. Records are values.
- The `dba` function table and `dba_rc_sqlite3()` are left out; they are only
  wiring. `src/rc_sqlite3.h` declares that accessor and holds no logic.
- `kw_get_int` is not part of this model's source. It is modelled as "the
  integer stored under the key, otherwise the default". Conversions it may
  do for other kinds (strings, reals, booleans) and the logging `KW_REQUIRED`
  asks for are not modelled.
- A NULL declared type (an expression column) would crash `strcasecmp`.
  Declared types are modelled as strings.
- Strings are sequences of characters. NUL bytes that cut C strings short,
  and text the JSON library refuses as invalid UTF-8 (a column whose
  `asText` is None), are not analysed further.
- The callback's `gobj`, `resource` and `user_data` arguments are folded into
  the callback. Its state is modelled as the records it has been handed so
  far, and its effect on the record as the record it leaves.
- DbaLoadTable: a callback with effects beyond its own state and the record
  in hand is not modelled. Keeping a reference to an appended record and
  changing it later, or changing the list through `user_data`, are examples.
  AcceptedPassCallback relies on this.
- SqliteGlobals.ConfigureOnce: `__sqlite_initialized__` is a plain flag,
  tested and set without synchronisation. "Exactly once" holds for
  `dba_open` calls made one after another; concurrent opens are not modelled.
- Booleans and null are written as `1` and `0` into BLOB columns. What they
  decode back to depends on `nonlegalbuffer2json`, so no lemma states it.

### Where the code does not do what one would expect

The model follows the code in each case.

- `sqlite_drop_table` writes `DROP TABLE <t> ;`, with a space before the
  semicolon (SqliteDropTable).
- One would expect an UPDATE of a record without updatable fields to be a
  harmless statement. It is not: it is `UPDATE <t> SET  WHERE id=<id>;`, which SQLite refuses
  (UpdateWithoutFields).
- Reals are written with `%.f` (line 648), which prints no fractional
  digits. A real inserted or updated through the serializer loses its
  fraction. It is still read back as a real from a REAL column, but a
  non-integral real does not come back as the value that was written.
- A callback that always answers negatively appends nothing at all, not
  even the first record it was handed (NothingAccepted).
- Select filter strings are embedded without quoting
  (SelectFilterStringNotEscaped), unlike values written by the serializer.
