/**
 * The row decoder (`sqlrow2json`): one result row of a SELECT becomes a JSON
 * object, column by column, dispatching on each column's declared type.
 */
module RowDecoder {

  import opened Wrappers
  import opened JsonValues
  import opened SqlText
  import opened ValueSerializer

  /**
   * One column of the current row as the engine's accessors report it: its
   * name, its declared type, and what each accessor returns for it.
   * `asReal` is None for a double the JSON library refuses (not finite),
   * `asText` is None when the text accessor or the JSON string constructor
   * gives NULL, and `asBlob` is None when the blob pointer is NULL.
   */
  datatype Column = Column(
    name: string,
    declType: string,
    asInt: int64,
    asReal: Option<real>,
    asText: Option<string>,
    asBlob: Option<seq<byte>>)

  /** A declared type the decoder knows, in any letter case. */
  predicate KnownType(t: string)
  {
    EqualsIgnoreCase(t, "INTEGER") || EqualsIgnoreCase(t, "REAL")
    || EqualsIgnoreCase(t, "TEXT") || EqualsIgnoreCase(t, "BLOB")
  }

  /** A declared type matches at most one of the four names, whatever its letter case. */
  lemma TypeNamesExclusive(t: string)
    ensures EqualsIgnoreCase(t, "REAL") ==> !EqualsIgnoreCase(t, "INTEGER")
    ensures EqualsIgnoreCase(t, "TEXT") ==> !EqualsIgnoreCase(t, "INTEGER") && !EqualsIgnoreCase(t, "REAL")
    ensures EqualsIgnoreCase(t, "BLOB") ==>
      !EqualsIgnoreCase(t, "INTEGER") && !EqualsIgnoreCase(t, "REAL") && !EqualsIgnoreCase(t, "TEXT")
  {
    if |t| > 0 {
      assert Lower("REAL"[0]) == 'r' && Lower("TEXT"[0]) == 't' && Lower("BLOB"[0]) == 'b';
    }
  }

  /**
   * The value one column contributes to the record, or None when it
   * contributes no field: an unknown declared type, a NULL blob, a blob the
   * parser refuses, or a value the JSON constructors refuse.
   */
  function DecodeColumn(c: Column, ext: Externals): (o: Option<Value>)
    ensures o.Some? ==> KnownType(c.declType)
    ensures EqualsIgnoreCase(c.declType, "INTEGER") ==> o == Some(Int(c.asInt))
    ensures EqualsIgnoreCase(c.declType, "REAL") ==>
      o == (if c.asReal.Some? then Some(Real(c.asReal.value)) else None)
    ensures EqualsIgnoreCase(c.declType, "TEXT") ==>
      o == (if c.asText.Some? then Some(Str(c.asText.value)) else None)
    ensures EqualsIgnoreCase(c.declType, "BLOB") ==>
      o == (if c.asBlob.Some? then ext.parseBuffer(c.asBlob.value) else None)
  {
    TypeNamesExclusive(c.declType);
    if EqualsIgnoreCase(c.declType, "INTEGER") then Some(Int(c.asInt))
    else if EqualsIgnoreCase(c.declType, "REAL") then
      match c.asReal
      case None => None
      case Some(d) => Some(Real(d))
    else if EqualsIgnoreCase(c.declType, "TEXT") then
      match c.asText
      case None => None
      case Some(s) => Some(Str(s))
    else if EqualsIgnoreCase(c.declType, "BLOB") then
      match c.asBlob
      case None => None
      case Some(b) => ext.parseBuffer(b)
    else None
  }

  /** The record the columns make, each decoded column set under its name in column order. */
  function DecodeRow(cols: seq<Column>, ext: Externals): Record
    decreases |cols|
  {
    if cols == [] then []
    else
      var r := DecodeRow(cols[..|cols| - 1], ext);
      var c := cols[|cols| - 1];
      match DecodeColumn(c, ext)
      case None => r
      case Some(v) => Set(r, c.name, v)
  }

  /** `sqlrow2json`: the loop over the columns of the current row. */
  method SqlRowToJson(cols: seq<Column>, ext: Externals) returns (record: Record)
    ensures record == DecodeRow(cols, ext)
  {
    record := [];
    for i := 0 to |cols|
      invariant record == DecodeRow(cols[..i], ext)
    {
      assert cols[..i + 1][..i] == cols[..i];
      var c := cols[i];
      if EqualsIgnoreCase(c.declType, "INTEGER") {
        record := Set(record, c.name, Int(c.asInt));
      } else if EqualsIgnoreCase(c.declType, "REAL") {
        if c.asReal.Some? {
          record := Set(record, c.name, Real(c.asReal.value));
        }
      } else if EqualsIgnoreCase(c.declType, "TEXT") {
        if c.asText.Some? {
          record := Set(record, c.name, Str(c.asText.value));
        }
      } else if EqualsIgnoreCase(c.declType, "BLOB") {
        if c.asBlob.Some? {
          var parsed := ext.parseBuffer(c.asBlob.value);
          if parsed.Some? {
            record := Set(record, c.name, parsed.value);
          }
        }
      }
    }
    assert cols[..|cols|] == cols;
  }

  /** The keys a decoded row gains from its last column. */
  lemma DecodeRowLastKeys(cols: seq<Column>, ext: Externals)
    requires cols != []
    ensures var c := cols[|cols| - 1];
      forall k :: k in Keys(DecodeRow(cols, ext)) <==>
        k in Keys(DecodeRow(cols[..|cols| - 1], ext)) || (k == c.name && DecodeColumn(c, ext).Some?)
  {
    var c := cols[|cols| - 1];
    match DecodeColumn(c, ext)
    case None =>
    case Some(v) => SetKeys(DecodeRow(cols[..|cols| - 1], ext), c.name, v);
  }

  /** Only column names appear as keys: every key is the name of a column that decoded to a value. */
  lemma {:induction false} DecodeRowKeysFromColumns(cols: seq<Column>, ext: Externals)
    ensures forall k :: k in Keys(DecodeRow(cols, ext)) ==>
      exists i :: 0 <= i < |cols| && cols[i].name == k && DecodeColumn(cols[i], ext).Some?
    decreases |cols|
  {
    if cols != [] {
      var init := cols[..|cols| - 1];
      DecodeRowKeysFromColumns(init, ext);
      DecodeRowLastKeys(cols, ext);
      forall k | k in Keys(DecodeRow(cols, ext))
        ensures exists i :: 0 <= i < |cols| && cols[i].name == k && DecodeColumn(cols[i], ext).Some?
      {
        if k in Keys(DecodeRow(init, ext)) {
          var i :| 0 <= i < |init| && init[i].name == k && DecodeColumn(init[i], ext).Some?;
          assert cols[i] == init[i];
        } else {
          assert cols[|cols| - 1].name == k;
        }
      }
    }
  }

  /**
   * Every column that decoded to a value has its name among the keys; a
   * column skipped for an unknown type, a NULL or an unparsable blob adds
   * nothing.
   */
  lemma {:induction false} DecodeRowKeysCoverColumns(cols: seq<Column>, ext: Externals)
    ensures forall i :: 0 <= i < |cols| && DecodeColumn(cols[i], ext).Some? ==>
      cols[i].name in Keys(DecodeRow(cols, ext))
    decreases |cols|
  {
    if cols != [] {
      var init := cols[..|cols| - 1];
      DecodeRowKeysCoverColumns(init, ext);
      DecodeRowLastKeys(cols, ext);
      forall i | 0 <= i < |cols| - 1 && DecodeColumn(cols[i], ext).Some?
        ensures cols[i].name in Keys(DecodeRow(cols, ext))
      {
        assert init[i] == cols[i];
      }
    }
  }

  /** A decoded row never holds a key twice, even when two columns share a name. */
  lemma {:induction false} DecodeRowUnique(cols: seq<Column>, ext: Externals)
    ensures UniqueKeys(DecodeRow(cols, ext))
    decreases |cols|
  {
    if cols != [] {
      var init := cols[..|cols| - 1];
      var c := cols[|cols| - 1];
      DecodeRowUnique(init, ext);
      match DecodeColumn(c, ext)
      case None =>
      case Some(v) => SetUnique(DecodeRow(init, ext), c.name, v);
    }
  }

  /**
   * The field of a name holds what the last column of that name that
   * decoded to a value decoded to; with distinct column names, each
   * decoded column is found under its own name.
   */
  lemma {:induction false} DecodeRowLastWins(cols: seq<Column>, ext: Externals, i: nat)
    requires i < |cols| && DecodeColumn(cols[i], ext).Some?
    requires forall j :: i < j < |cols| && cols[j].name == cols[i].name ==> DecodeColumn(cols[j], ext).None?
    ensures Lookup(DecodeRow(cols, ext), cols[i].name) == DecodeColumn(cols[i], ext)
    decreases |cols|
  {
    var init := cols[..|cols| - 1];
    var c := cols[|cols| - 1];
    var r := DecodeRow(init, ext);
    if i == |cols| - 1 {
      SetLookup(r, c.name, DecodeColumn(c, ext).value);
    } else {
      assert init[i] == cols[i];
      forall j | i < j < |init| && init[j].name == init[i].name
        ensures DecodeColumn(init[j], ext).None?
      {
        assert init[j] == cols[j];
      }
      DecodeRowLastWins(init, ext, i);
      match DecodeColumn(c, ext)
      case None =>
      case Some(v) => SetLookup(r, c.name, v);
    }
  }

  /**
   * A string, an integer or a real stored in the column type the serializer
   * chooses for it comes back as the same value when the engine returns
   * what was stored.
   */
  lemma ScalarTypeRoundTrip(c: Column, v: Value, ext: Externals)
    requires v.Str? || v.Int? || v.Real?
    requires c.declType == JsonTypeToSqlType(v)
    requires v.Int? ==> c.asInt == v.i
    requires v.Real? ==> c.asReal == Some(v.r)
    requires v.Str? ==> c.asText == Some(v.s)
    ensures DecodeColumn(c, ext) == Some(v)
  {
    if v.Str? {
      assert !EqualsIgnoreCase("TEXT", "INTEGER");
      assert Lower("TEXT"[0]) != Lower("REAL"[0]);
      assert !EqualsIgnoreCase("TEXT", "REAL");
      assert EqualsIgnoreCase("TEXT", "TEXT");
    } else if v.Real? {
      assert !EqualsIgnoreCase("REAL", "INTEGER");
      assert EqualsIgnoreCase("REAL", "REAL");
    }
  }
}
