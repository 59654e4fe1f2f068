/**
 * The store operations that write: `dba_create_table`, `dba_drop_table`,
 * `dba_create_record`, `dba_update_record` and `dba_delete_record`. Each
 * builds its statement and runs it with one step; the record operations
 * also decide what happens to the record's `id` field.
 */
module RecordOps {

  import opened Wrappers
  import opened JsonValues
  import opened SqlText
  import opened ValueSerializer
  import opened StatementBuilder
  import opened LoadPipeline

  /** `(uint64_t)x` for a signed 64-bit value: reduction modulo 2^64. */
  function AsUint64(x: int64): (u: uint64)
    ensures x >= 0 ==> u as int == x as int
    ensures x < 0 ==> u as int == x as int + 0x1_0000_0000_0000_0000
  {
    if x >= 0 then x as int as uint64 else (x as int + 0x1_0000_0000_0000_0000) as uint64
  }

  /** `(json_int_t)u` for an unsigned 64-bit value, as two's complement. */
  function AsInt64(u: uint64): (x: int64)
    ensures u as int < 0x8000_0000_0000_0000 ==> x as int == u as int
  {
    if u as int < 0x8000_0000_0000_0000 then u as int as int64
    else (u as int - 0x1_0000_0000_0000_0000) as int64
  }

  /** The id survives its trip through a `uint64_t` variable unchanged. */
  lemma IdConversionRoundTrip(x: int64)
    ensures AsInt64(AsUint64(x)) == x
  {
  }

  /** `(uint64_t)-1`, what `dba_create_record` returns on failure. */
  const CreateFailed: uint64 := 0xFFFF_FFFF_FFFF_FFFF

  /** `dba_create_table`: runs the CREATE TABLE statement and returns the step status. */
  method DbaCreateTable(table: string, key: Option<string>, fields: Record, engine: Engine)
    returns (ret: int, sql: string)
    ensures sql == CreateTableText(table, key, fields)
    ensures ret == 0 || ret == -1
    ensures ret == 0 <==> RunsToCompletion(sql, engine)
  {
    sql := SqliteCreateTable(table, key, fields);
    var finalized;
    ret, finalized := OneStep(sql, engine);
  }

  /** `dba_drop_table`: runs the DROP TABLE statement and returns the step status. */
  method DbaDropTable(table: string, engine: Engine) returns (ret: int, sql: string)
    ensures sql == DropTableText(table)
    ensures ret == 0 || ret == -1
    ensures ret == 0 <==> RunsToCompletion(sql, engine)
  {
    sql := SqliteDropTable(table);
    var finalized;
    ret, finalized := OneStep(sql, engine);
  }

  /**
   * The fields `dba_create_record` inserts: the field exactly named `id` is
   * dropped when `kw_get_int` reads it as 0, that is when it is absent, is
   * not an integer, or is the integer 0, so that the engine assigns the id.
   */
  function InsertedFields(record: Record): Record
  {
    if KwGetInt(record, "id", 0) == 0 then Delete(record, "id") else record
  }

  /**
   * `dba_create_record`: inserts the record and returns the rowid the
   * engine reports as an unsigned 64-bit number, or `(uint64_t)-1` when
   * the statement fails.
   */
  method DbaCreateRecord(table: string, record: Record, engine: Engine, ext: Externals)
    returns (id: uint64, sql: string)
    ensures sql == InsertText(table, InsertedFields(record), ext)
    ensures RunsToCompletion(sql, engine) ==> id == AsUint64(engine.lastInsertRowid)
    ensures !RunsToCompletion(sql, engine) ==> id == CreateFailed
  {
    var given := KwGetInt(record, "id", 0);
    var fields := record;
    if given == 0 {
      fields := Delete(fields, "id");
    }
    sql := SqliteInsertNew(table, fields, ext);
    var ret, finalized := OneStep(sql, engine);
    if ret < 0 {
      return CreateFailed, sql;
    }
    var rowid := engine.lastInsertRowid;
    id := AsUint64(rowid);
  }

  /**
   * The inserted record keeps its `id` field exactly when that field holds
   * a nonzero integer; every other field is inserted as it is.
   */
  lemma InsertedId(record: Record)
    ensures "id" in Keys(InsertedFields(record)) <==>
      exists i :: Lookup(record, "id") == Some(Int(i)) && i != 0
    ensures forall p: (string, Value) :: p.0 != "id" ==> (p in InsertedFields(record) <==> p in record)
  {
    DeleteRemovesOnlyKey(record, "id");
    if KwGetInt(record, "id", 0) != 0 {
      var i := KwGetInt(record, "id", 0);
      assert Lookup(record, "id") == Some(Int(i));
    }
  }

  /**
   * A record inserted with the id -1 reports the same result as a failed
   * insert: the two cannot be told apart by the caller.
   */
  lemma CreateSentinelIsRowidMinusOne()
    ensures AsUint64(-1) == CreateFailed
  {
  }

  /**
   * `dba_update_record`: the id comes from the filter (0 when the filter
   * has none), the record's `id` field is deleted, and the rest is written
   * by the UPDATE statement. The deletion changes no statement text, since
   * the builder skips every spelling of `id` anyway.
   */
  method DbaUpdateRecord(table: string, filter: Record, record: Record, engine: Engine, ext: Externals)
    returns (ret: int, sql: string)
    ensures sql == UpdateText(table, KwGetInt(filter, "id", 0), record, ext)
    ensures ret == 0 || ret == -1
    ensures ret == 0 <==> RunsToCompletion(sql, engine)
  {
    var id: uint64 := AsUint64(KwGetInt(filter, "id", 0));
    var fields := Delete(record, "id");
    IdConversionRoundTrip(KwGetInt(filter, "id", 0));
    UpdateIgnoresIdField(table, AsInt64(id), record, ext);
    sql := SqliteUpdateId(table, AsInt64(id), fields, ext);
    var finalized;
    ret, finalized := OneStep(sql, engine);
  }

  /** `dba_delete_record`: deletes the row whose id the filter gives (0 when it has none). */
  method DbaDeleteRecord(table: string, filter: Record, engine: Engine)
    returns (ret: int, sql: string)
    ensures sql == DeleteText(table, KwGetInt(filter, "id", 0))
    ensures ret == 0 || ret == -1
    ensures ret == 0 <==> RunsToCompletion(sql, engine)
  {
    var id: uint64 := AsUint64(KwGetInt(filter, "id", 0));
    IdConversionRoundTrip(KwGetInt(filter, "id", 0));
    sql := SqliteDeleteId(table, AsInt64(id));
    var status, finalized := OneStep(sql, engine);
    if status < 0 {
      return -1, sql;
    }
    ret := 0;
  }
}
