/**
 * The statement builders `sqlite_create_table`, `sqlite_drop_table`,
 * `sqlite_insert_new`, `sqlite_update_id`, `sqlite_delete_id` and
 * `sqlite_select`. Each is a method proved equal to a specification
 * function that gives the statement as its clauses joined together. The
 * CREATE TABLE, INSERT, UPDATE and SELECT builders append to a growing text
 * buffer while walking the ordered fields of a record with a separator
 * counter; DROP TABLE and DELETE write their text in one step.
 */
module StatementBuilder {

  import opened Wrappers
  import opened JsonValues
  import opened SqlText
  import opened ValueSerializer

  // ---------------------------------------------------------------------
  // CREATE TABLE

  /** One `<key> <type>` column definition per field, in iteration order. */
  function ColumnDefinitions(fields: Record): seq<string>
  {
    seq(|fields|, i requires 0 <= i < |fields| => fields[i].0 + " " + JsonTypeToSqlType(fields[i].1))
  }

  function PrimaryKeyClause(key: Option<string>): string
  {
    if key.Some? then ", PRIMARY KEY (" + key.value + ")" else ""
  }

  function CreateTableText(table: string, key: Option<string>, fields: Record): string
  {
    "CREATE TABLE IF NOT EXISTS " + table + " (" + Join(", ", ColumnDefinitions(fields)) + PrimaryKeyClause(key) + ");"
  }

  /**
   * `sqlite_create_table`. The column type of a field comes from its value's
   * kind; the source's branch for a field without a type is never taken,
   * because the type inferencer is total, so every field gets a column.
   */
  method SqliteCreateTable(table: string, key: Option<string>, fields: Record) returns (sql: string)
    ensures sql == CreateTableText(table, key, fields)
  {
    var head := "CREATE TABLE IF NOT EXISTS " + table + " (";
    ghost var defs := ColumnDefinitions(fields);
    sql := head;
    var cols := 0;
    for i := 0 to |fields|
      invariant cols == i
      invariant sql == head + Join(", ", defs[..i])
    {
      var k := fields[i].0;
      var columnType := JsonTypeToSqlType(fields[i].1);
      AppendPart(head, ", ", defs, i);
      assert defs[i] == k + " " + columnType;
      if cols > 0 {
        sql := sql + ", ";
      }
      sql := sql + (k + " " + columnType);
      cols := cols + 1;
    }
    assert defs[..|fields|] == defs;
    ghost var columns := sql;
    if key.Some? {
      sql := sql + ", PRIMARY KEY (";
      sql := sql + key.value;
      sql := sql + ")";
      assert sql == columns + PrimaryKeyClause(key);
    }
    sql := sql + ");";
  }

  /** One column definition per field, each naming the field and one of the four column types. */
  lemma ColumnDefinitionTypes(fields: Record)
    ensures |ColumnDefinitions(fields)| == |fields|
    ensures forall i :: 0 <= i < |fields| ==>
      exists t :: t in ColumnTypes && ColumnDefinitions(fields)[i] == fields[i].0 + " " + t
  {
    forall i | 0 <= i < |fields|
      ensures exists t :: t in ColumnTypes && ColumnDefinitions(fields)[i] == fields[i].0 + " " + t
    {
      var t := JsonTypeToSqlType(fields[i].1);
      assert t in ColumnTypes && ColumnDefinitions(fields)[i] == fields[i].0 + " " + t;
    }
  }

  // ---------------------------------------------------------------------
  // DROP TABLE

  function DropTableText(table: string): string
  {
    "DROP TABLE " + table + " ;"
  }

  /** `sqlite_drop_table`: no existence guard, the table name is written as given. */
  method SqliteDropTable(table: string) returns (sql: string)
    ensures sql == DropTableText(table)
    ensures sql[|"DROP TABLE "|..|sql| - |" ;"|] == table
  {
    sql := "DROP TABLE " + table + " ;";
  }

  // ---------------------------------------------------------------------
  // INSERT

  /** The serialized values of a record, in iteration order. */
  function Literals(r: Record, ext: Externals): seq<string>
  {
    seq(|r|, i requires 0 <= i < |r| => ValueLiteral(r[i].1, ext))
  }

  function InsertText(table: string, r: Record, ext: Externals): string
  {
    "INSERT INTO " + table + " (" + Join(", ", Keys(r)) + ") VALUES (" + Join(", ", Literals(r, ext)) + ");"
  }

  /**
   * `sqlite_insert_new`: a first pass writes the keys, a second pass the
   * values. A failed serialization would be logged and the build would go
   * on; with the closed value variant it never fails.
   */
  method SqliteInsertNew(table: string, r: Record, ext: Externals) returns (sql: string)
    ensures sql == InsertText(table, r, ext)
  {
    var head := "INSERT INTO " + table + " (";
    sql := head;
    var i := 0;
    for j := 0 to |r|
      invariant i == j
      invariant sql == head + Join(", ", Keys(r)[..j])
    {
      AppendPart(head, ", ", Keys(r), j);
      if i == 0 {
        sql := sql + r[j].0;
      } else {
        sql := sql + ", " + r[j].0;
      }
      i := i + 1;
    }
    assert Keys(r)[..|r|] == Keys(r);
    sql := sql + ") VALUES (";
    var middle := sql;
    i := 0;
    for j := 0 to |r|
      invariant i == j
      invariant sql == middle + Join(", ", Literals(r, ext)[..j])
    {
      AppendPart(middle, ", ", Literals(r, ext), j);
      if i > 0 {
        sql := sql + ", ";
      }
      var ret;
      sql, ret := WriteDbValue(sql, r[j].1, ext);
      if ret < 0 {
        // the source logs the invalid value and keeps building
      }
      i := i + 1;
    }
    assert Literals(r, ext)[..|r|] == Literals(r, ext);
    sql := sql + ");";
  }

  /** The literals a VALUES list must read back as: one per field, in order. */
  function LiteralsOf(r: Record, ext: Externals): seq<Literal>
  {
    seq(|r|, i requires 0 <= i < |r| => LiteralOf(r[i].1, ext))
  }

  /** Reads a comma-separated list of literals up to the text that closes it. */
  function ReadItems(t: string): Option<(seq<Literal>, string)>
    decreases |t|
  {
    match ReadLiteral(t)
    case None => None
    case Some(p) =>
      if |p.1| >= 2 && p.1[..2] == ", " then
        match ReadItems(p.1[2..])
        case None => None
        case Some(q) => Some(([p.0] + q.0, q.1))
      else Some(([p.0], p.1))
  }

  /** Reads the inside of `VALUES (...)`, which may be empty. */
  function ReadValueList(t: string): Option<(seq<Literal>, string)>
  {
    if |t| > 0 && t[0] == ')' then Some(([], t)) else ReadItems(t)
  }

  lemma ReadItemsLast(t: string, l: Literal, rest: string)
    requires ReadLiteral(t) == Some((l, rest))
    requires |rest| > 0 && rest[0] == ')'
    ensures ReadItems(t) == Some(([l], rest))
  {
  }

  lemma ReadItemsMore(t: string, l: Literal, u: string, ls: seq<Literal>, rest: string)
    requires ReadLiteral(t) == Some((l, ", " + u))
    requires ReadItems(u) == Some((ls, rest))
    ensures ReadItems(t) == Some(([l] + ls, rest))
  {
    assert (", " + u)[..2] == ", " && (", " + u)[2..] == u;
  }

  /** The literals of a record split into the first field's and the rest's. */
  lemma LiteralsSplit(r: Record, ext: Externals)
    requires |r| > 0
    ensures Literals(r, ext) == [ValueLiteral(r[0].1, ext)] + Literals(r[1..], ext)
    ensures LiteralsOf(r, ext) == [LiteralOf(r[0].1, ext)] + LiteralsOf(r[1..], ext)
  {
  }

  /** A list of two or more literals read from the front: the first, the separator, the rest. */
  lemma LiteralsCons(r: Record, ext: Externals, rest: string)
    requires |r| > 1
    ensures Join(", ", Literals(r, ext)) + rest
      == Literals(r, ext)[0] + (", " + (Join(", ", Literals(r[1..], ext)) + rest))
  {
    var first := ValueLiteral(r[0].1, ext);
    var others := Literals(r[1..], ext);
    LiteralsSplit(r, ext);
    JoinConsRest(", ", first, others, rest);
  }

  lemma {:induction false} ReadJoinedLiterals(r: Record, ext: Externals, rest: string)
    requires |r| > 0
    requires PrintsBareReals(ext)
    requires |rest| > 0 && rest[0] == ')'
    ensures ReadItems(Join(", ", Literals(r, ext)) + rest) == Some((LiteralsOf(r, ext), rest))
    decreases |r|
  {
    var lits := Literals(r, ext);
    if |r| == 1 {
      ReadValueLiteral(r[0].1, ext, rest);
      ReadItemsLast(lits[0] + rest, LiteralOf(r[0].1, ext), rest);
      assert LiteralsOf(r, ext) == [LiteralOf(r[0].1, ext)];
    } else {
      var tail := r[1..];
      var u := Join(", ", Literals(tail, ext)) + rest;
      LiteralsCons(r, ext, rest);
      LiteralsSplit(r, ext);
      ReadValueLiteral(r[0].1, ext, ", " + u);
      ReadJoinedLiterals(tail, ext, rest);
      ReadItemsMore(lits[0] + (", " + u), LiteralOf(r[0].1, ext), u, LiteralsOf(tail, ext), rest);
    }
  }

  /** A nonempty VALUES list starts with a literal, never with the closing parenthesis. */
  lemma JoinedLiteralsStart(r: Record, ext: Externals, rest: string)
    requires |r| > 0
    requires PrintsBareReals(ext)
    ensures (Join(", ", Literals(r, ext)) + rest)[0] != ')'
  {
    var lits := Literals(r, ext);
    var v := r[0].1;
    if |lits| > 1 {
      JoinCons(", ", lits[0], lits[1..]);
      assert lits == [lits[0]] + lits[1..];
    }
    assert (Join(", ", lits) + rest)[0] == lits[0][0] by {
      assert |lits[0]| > 0 by {
        if v.Int? { DecimalCharacters(v.i as int); }
      }
    }
    if v.Int? { DecimalCharacters(v.i as int); }
  }

  /**
   * Injection safety of INSERT: the VALUES list reads back as exactly one
   * literal per field, in field order, each carrying the field's own value
   * (strings with whatever quotes they contain), and the list is closed by
   * the builder's own `);`.
   */
  lemma InsertValuesReadBack(r: Record, ext: Externals)
    requires PrintsBareReals(ext)
    ensures ReadValueList(Join(", ", Literals(r, ext)) + ");") == Some((LiteralsOf(r, ext), ");"))
    ensures |Keys(r)| == |LiteralsOf(r, ext)|
  {
    if |r| > 0 {
      ReadJoinedLiterals(r, ext, ");");
      JoinedLiteralsStart(r, ext, ");");
    } else {
      assert Join(", ", Literals(r, ext)) + ");" == ");";
      assert LiteralsOf(r, ext) == [];
    }
  }

  // ---------------------------------------------------------------------
  // UPDATE

  /** The fields that may be set: every field whose key is not `id` in any letter case. */
  function UpdatableFields(r: Record): (u: Record)
    ensures |u| <= |r|
  {
    if r == [] then []
    else (if IsIdKey(r[0].0) then [] else [r[0]]) + UpdatableFields(r[1..])
  }

  function SetClauses(fs: Record, ext: Externals): seq<string>
  {
    seq(|fs|, i requires 0 <= i < |fs| => fs[i].0 + " = " + ValueLiteral(fs[i].1, ext))
  }

  function WhereId(id: int64): string
  {
    " WHERE id=" + Decimal(id as int) + ";"
  }

  function UpdateText(table: string, id: int64, r: Record, ext: Externals): string
  {
    "UPDATE " + table + " SET " + Join(", ", SetClauses(UpdatableFields(r), ext)) + WhereId(id)
  }

  lemma {:induction false} UpdatableFieldsAppend(a: Record, b: Record)
    ensures UpdatableFields(a + b) == UpdatableFields(a) + UpdatableFields(b)
  {
    if a == [] {
      assert a + b == b;
    } else {
      assert (a + b)[0] == a[0] && (a + b)[1..] == a[1..] + b;
      UpdatableFieldsAppend(a[1..], b);
    }
  }

  lemma UpdatableStep(r: Record, j: nat)
    requires j < |r|
    ensures UpdatableFields(r[..j + 1]) == UpdatableFields(r[..j]) + (if IsIdKey(r[j].0) then [] else [r[j]])
  {
    assert r[..j + 1] == r[..j] + [r[j]];
    UpdatableFieldsAppend(r[..j], [r[j]]);
    assert UpdatableFields([r[j]]) == (if IsIdKey(r[j].0) then [] else [r[j]]) + UpdatableFields([]);
  }

  lemma SetClausesSnoc(done: Record, f: (string, Value), ext: Externals)
    ensures |SetClauses(done + [f], ext)| == |done| + 1
    ensures SetClauses(done + [f], ext)[..|done|] == SetClauses(done, ext)
    ensures SetClauses(done + [f], ext)[..|done| + 1] == SetClauses(done + [f], ext)
    ensures SetClauses(done + [f], ext)[|done|] == f.0 + " = " + ValueLiteral(f.1, ext)
  {
  }

  /** What one turn of the update loop adds: nothing for an id field, otherwise a separated SET clause. */
  lemma UpdateLoopStep(head: string, r: Record, j: nat, ext: Externals)
    requires j < |r|
    ensures var done := UpdatableFields(r[..j]);
      UpdatableFields(r[..j + 1]) == done + (if IsIdKey(r[j].0) then [] else [r[j]])
      && head + Join(", ", SetClauses(UpdatableFields(r[..j + 1]), ext))
         == if IsIdKey(r[j].0) then head + Join(", ", SetClauses(done, ext))
            else head + Join(", ", SetClauses(done, ext)) + (if |done| > 0 then ", " else [])
                 + (r[j].0 + " = " + ValueLiteral(r[j].1, ext))
  {
    var done := UpdatableFields(r[..j]);
    UpdatableStep(r, j);
    if IsIdKey(r[j].0) {
      assert done + [] == done;
    } else {
      SetClausesSnoc(done, r[j], ext);
      AppendPart(head, ", ", SetClauses(done + [r[j]], ext), |done|);
    }
  }

  /**
   * `sqlite_update_id`: fields whose key is `id` in any letter case are
   * skipped, the separator counter only counts the fields written.
   */
  method SqliteUpdateId(table: string, id: int64, r: Record, ext: Externals) returns (sql: string)
    ensures sql == UpdateText(table, id, r, ext)
  {
    var head := "UPDATE " + table + " SET ";
    sql := head;
    var i := 0;
    ghost var done: Record := [];
    for j := 0 to |r|
      invariant done == UpdatableFields(r[..j])
      invariant i == |done|
      invariant sql == head + Join(", ", SetClauses(done, ext))
    {
      UpdateLoopStep(head, r, j, ext);
      var key := r[j].0;
      if IsIdKey(key) {
        continue;
      }
      if i > 0 {
        sql := sql + ", ";
      }
      ghost var separated := sql;
      assert separated + key + " = " + ValueLiteral(r[j].1, ext) == separated + (key + " = " + ValueLiteral(r[j].1, ext));
      sql := sql + key;
      sql := sql + " = ";
      var ret;
      sql, ret := WriteDbValue(sql, r[j].1, ext);
      if ret < 0 {
        // the source logs the invalid value and keeps building
      }
      done := done + [r[j]];
      i := i + 1;
    }
    assert r[..|r|] == r;
    sql := sql + WhereId(id);
  }

  /** A field is set exactly when it is a field of the record whose key is not `id` in any letter case. */
  lemma {:induction false} UpdatableFieldsExactly(r: Record)
    ensures forall p :: p in UpdatableFields(r) <==> p in r && !IsIdKey(p.0)
  {
    if r != [] {
      UpdatableFieldsExactly(r[1..]);
      assert r == [r[0]] + r[1..];
    }
  }

  /** No SET clause names the id column. */
  lemma UpdateNeverSetsId(r: Record, ext: Externals)
    ensures forall p :: p in UpdatableFields(r) ==> !IsIdKey(p.0)
    ensures forall i :: 0 <= i < |UpdatableFields(r)| ==>
      SetClauses(UpdatableFields(r), ext)[i] == UpdatableFields(r)[i].0 + " = " + ValueLiteral(UpdatableFields(r)[i].1, ext)
  {
    UpdatableFieldsExactly(r);
  }

  /** Removing `id` from the record first, as `dba_update_record` does, does not change the statement. */
  lemma {:induction false} UpdateIgnoresIdField(table: string, id: int64, r: Record, ext: Externals)
    ensures UpdatableFields(Delete(r, "id")) == UpdatableFields(r)
    ensures UpdateText(table, id, Delete(r, "id"), ext) == UpdateText(table, id, r, ext)
  {
    if r != [] {
      UpdateIgnoresIdField(table, id, r[1..], ext);
      if r[0].0 == "id" {
        assert IsIdKey(r[0].0);
      } else {
        assert Delete(r, "id") == [r[0]] + Delete(r[1..], "id");
        assert ([r[0]] + Delete(r[1..], "id"))[1..] == Delete(r[1..], "id");
      }
    }
  }

  /** The WHERE clause addresses exactly the given id, which reads back from the text. */
  lemma WhereIdReadBack(id: int64)
    ensures var w := WhereId(id);
      |w| > 11 && w[..10] == " WHERE id=" && w[|w| - 1] == ';' && ParseDecimal(w[10..|w| - 1]) == Some(id as int)
  {
    DecimalRoundTrip(id as int);
    DecimalCharacters(id as int);
    var w := WhereId(id);
    assert w[10..|w| - 1] == Decimal(id as int);
  }

  /** Every UPDATE statement ends with the WHERE clause for its id, whatever the record holds. */
  lemma UpdateEndsWithWhereId(table: string, id: int64, r: Record, ext: Externals)
    ensures var u := UpdateText(table, id, r, ext);
      |u| >= |WhereId(id)| && u[|u| - |WhereId(id)|..] == WhereId(id)
  {
    var u := UpdateText(table, id, r, ext);
    var front := "UPDATE " + table + " SET " + Join(", ", SetClauses(UpdatableFields(r), ext));
    assert u == front + WhereId(id);
    assert u[|front|..] == WhereId(id);
  }

  /**
   * A record with nothing but id fields still produces an UPDATE, with an
   * empty SET list directly followed by the WHERE clause.
   */
  lemma UpdateWithoutFields(table: string, id: int64, r: Record, ext: Externals)
    requires forall p :: p in r ==> IsIdKey(p.0)
    ensures UpdateText(table, id, r, ext) == "UPDATE " + table + " SET " + " WHERE id=" + Decimal(id as int) + ";"
  {
    UpdatableFieldsExactly(r);
  }

  // ---------------------------------------------------------------------
  // DELETE

  function DeleteText(table: string, id: int64): string
  {
    "DELETE FROM " + table + WhereId(id)
  }

  /** `sqlite_delete_id`. */
  method SqliteDeleteId(table: string, id: int64) returns (sql: string)
    ensures sql == DeleteText(table, id)
    ensures sql == "DELETE FROM " + table + " WHERE id=" + Decimal(id as int) + ";"
  {
    sql := "DELETE FROM " + table + " WHERE id=" + Decimal(id as int) + ";";
  }

  // ---------------------------------------------------------------------
  // SELECT

  /**
   * One equality predicate of the WHERE clause. A string is embedded between
   * quotes without escaping; a filter value of any other kind than integer,
   * string or real contributes no text.
   */
  function FilterPredicate(k: string, v: Value, ext: Externals): string
  {
    match v
    case Int(i) => k + "=" + Decimal(i as int)
    case Str(s) => k + "='" + s + "'"
    case Real(r) => k + "=" + ext.fixedSixDecimals(r)
    case _ => ""
  }

  function FilterPredicates(f: Record, ext: Externals): seq<string>
  {
    seq(|f|, i requires 0 <= i < |f| => FilterPredicate(f[i].0, f[i].1, ext))
  }

  function WhereClause(f: Record, ext: Externals): string
  {
    if |f| > 0 then " WHERE " + Join(" AND ", FilterPredicates(f, ext)) else ""
  }

  function SelectText(table: string, f: Record, ext: Externals): string
  {
    "SELECT * FROM " + table + " " + WhereClause(f, ext) + " ;"
  }

  /**
   * `sqlite_select`: ` AND ` is written before every filter field after the
   * first, whether or not the field before it produced a predicate.
   */
  method SqliteSelect(table: string, f: Record, ext: Externals) returns (sql: string)
    ensures sql == SelectText(table, f, ext)
  {
    sql := "SELECT * FROM " + table + " ";
    if |f| > 0 {
      sql := sql + " WHERE ";
      var head := sql;
      ghost var preds := FilterPredicates(f, ext);
      var cols := 0;
      for i := 0 to |f|
        invariant cols == i
        invariant sql == head + Join(" AND ", preds[..i])
      {
        AppendPart(head, " AND ", preds, i);
        if cols > 0 {
          sql := sql + " AND ";
        }
        ghost var before := sql;
        var k := f[i].0;
        var v := f[i].1;
        if v.Int? {
          sql := sql + (k + "=" + Decimal(v.i as int));
        } else if v.Str? {
          sql := sql + (k + "='" + v.s + "'");
        } else if v.Real? {
          sql := sql + (k + "=" + ext.fixedSixDecimals(v.r));
        }
        assert sql == before + preds[i];
        cols := cols + 1;
      }
      assert preds[..|f|] == preds;
    }
    sql := sql + " ;";
  }

  /**
   * Filter strings are not escaped: the literal of a filter string closes at
   * the string's first quote, and whatever follows that quote is read as
   * statement text (for `x' OR '1'='1` the literal is `x`).
   */
  lemma SelectFilterStringNotEscaped(k: string, a: string, b: string, ext: Externals)
    requires Quote !in a
    requires |b| > 0 && b[0] != Quote
    ensures FilterPredicate(k, Str(a + [Quote] + b), ext) == k + "=" + [Quote] + (a + [Quote] + (b + [Quote]))
    ensures ReadQuoted(a + [Quote] + (b + [Quote])) == Some((a, b + [Quote]))
  {
    EscapeNoQuotes(a);
    assert (b + [Quote])[0] == b[0];
    ReadEscaped(a, b + [Quote]);
  }
}
