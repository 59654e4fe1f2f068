/**
 * Running statements: `one_step`, which prepares a statement and steps it
 * once, and `dba_load_table`, which steps a SELECT row by row and collects
 * the decoded rows a caller's callback accepts.
 *
 * The engine is given, not modelled: whether it prepares a statement, the
 * results `sqlite3_step` returns for it one after the other, and the rowid
 * of the last insert. Stepping past the end of the given results reads as
 * SQLITE_DONE.
 */
module LoadPipeline {

  import opened Wrappers
  import opened JsonValues
  import opened ValueSerializer
  import opened StatementBuilder
  import opened RowDecoder

  /** One result of `sqlite3_step`: SQLITE_ROW with its columns, SQLITE_DONE, or any other code. */
  datatype Step = Row(columns: seq<Column>) | Done | Failed(code: int)

  datatype Engine = Engine(
    prepares: string -> bool,        // sqlite3_prepare_v2 returns SQLITE_OK
    steps: string -> seq<Step>,      // successive sqlite3_step results
    lastInsertRowid: int64)          // sqlite3_last_insert_rowid

  /** The result of the n-th step. */
  function StepAt(steps: seq<Step>, n: nat): Step
  {
    if n < |steps| then steps[n] else Done
  }

  /** The statement prepares and its first step reports completion. */
  predicate RunsToCompletion(sql: string, engine: Engine)
  {
    engine.prepares(sql) && StepAt(engine.steps(sql), 0) == Done
  }

  /**
   * `one_step`: 0 when the statement prepared and its one step returned
   * SQLITE_DONE, -1 otherwise (a row counts as a failure too). The
   * statement is finalized exactly when it was prepared.
   */
  method OneStep(sql: string, engine: Engine) returns (ret: int, finalized: bool)
    ensures ret == 0 || ret == -1
    ensures ret == 0 <==> RunsToCompletion(sql, engine)
    ensures finalized <==> engine.prepares(sql)
  {
    finalized := false;
    if !engine.prepares(sql) {
      return -1, finalized;
    }
    var step := StepAt(engine.steps(sql), 0);
    if step != Done {
      finalized := true;
      return -1, finalized;
    }
    finalized := true;
    ret := 0;
  }

  // ---------------------------------------------------------------------
  // Loading a table

  /**
   * What one call of the caller's `dba_filter` does: its answer, and the
   * record as the callback leaves it. The callback is handed the very object
   * the load then appends, so it may change it.
   */
  datatype Verdict = Verdict(answer: int, record: Record)

  /**
   * The callback. Whatever state it keeps through `user_data` is a result of
   * the records it was handed before, so its verdict is a function of those
   * records, in order, and of the record in hand.
   */
  type Callback = (seq<Record>, Record) -> Verdict

  /**
   * A step that ends the load, given the records the callback was handed
   * before it: completion, an error, or a row the callback answers with a
   * negative value.
   */
  predicate Stops(s: Step, seen: seq<Record>, callback: Callback, ext: Externals)
  {
    !s.Row? || callback(seen, DecodeRow(s.columns, ext)).answer < 0
  }

  /**
   * The records the load appends, in row order, when the callback was
   * already handed `seen`: each row up to the first step that stops the load
   * is decoded and handed to the callback, and the record it leaves is kept
   * when it answers with a positive value; a zero answer skips it.
   */
  function Accepted(steps: seq<Step>, seen: seq<Record>, callback: Callback, ext: Externals): (acc: seq<Record>)
    ensures |acc| <= |steps|
    decreases |steps|
  {
    if steps == [] then []
    else if Stops(steps[0], seen, callback, ext) then []
    else
      var r := DecodeRow(steps[0].columns, ext);
      var v := callback(seen, r);
      if v.answer == 0 then Accepted(steps[1..], seen + [r], callback, ext)
      else [v.record] + Accepted(steps[1..], seen + [r], callback, ext)
  }

  /** The list the load starts from: the caller's list, or a new empty one. */
  function InitialList(recordList: Option<seq<Record>>): seq<Record>
  {
    match recordList
    case None => []
    case Some(l) => l
  }

  /**
   * `dba_load_table`: builds the SELECT, prepares it, and steps it until
   * completion, an error or a negative callback answer. The result is the
   * initial list followed by the accepted records; a statement that does not
   * prepare leaves the initial list as it is. Every exit after a successful
   * prepare finalizes the statement. `handed` stands for the state the
   * callback keeps: the records it has been handed so far.
   */
  method DbaLoadTable(table: string, filter: Record, callback: Callback,
                      recordList: Option<seq<Record>>, engine: Engine, ext: Externals)
    returns (records: seq<Record>, finalized: bool)
    ensures var sql := SelectText(table, filter, ext);
      records == InitialList(recordList) + (if engine.prepares(sql) then Accepted(engine.steps(sql), [], callback, ext) else [])
    ensures finalized <==> engine.prepares(SelectText(table, filter, ext))
  {
    records := if recordList.None? then [] else recordList.value;
    finalized := false;
    var sql := SqliteSelect(table, filter, ext);
    if !engine.prepares(sql) {
      return;
    }
    var steps := engine.steps(sql);
    ghost var initial := records;
    var handed: seq<Record> := [];
    var n := 0;
    while true
      invariant n <= |steps|
      invariant records + Accepted(steps[n..], handed, callback, ext) == initial + Accepted(steps, [], callback, ext)
      decreases |steps| - n
    {
      var step := StepAt(steps, n);
      if step.Row? {
        assert steps[n..][0] == step && steps[n..][1..] == steps[n + 1..];
        var record := SqlRowToJson(step.columns, ext);
        var verdict := callback(handed, record);
        handed := handed + [record];
        if verdict.answer < 0 {
          break;
        } else if verdict.answer == 0 {
          n := n + 1;
          continue;
        }
        records := records + [verdict.record];
        n := n + 1;
      } else if step == Done {
        break;
      } else {
        finalized := true;
        return;
      }
    }
    finalized := true;
  }

  // ---------------------------------------------------------------------
  // Properties of the accepted records

  /** The decoded records of the rows among the steps, in order: what the callback is handed while none stops the load. */
  function Decoded(steps: seq<Step>, ext: Externals): seq<Record>
    decreases |steps|
  {
    if steps == [] then []
    else (if steps[0].Row? then [DecodeRow(steps[0].columns, ext)] else []) + Decoded(steps[1..], ext)
  }

  /** Nothing at or after a stopping step is looked at. */
  lemma {:induction false} AcceptedStopsAt(before: seq<Step>, s: Step, after: seq<Step>, seen: seq<Record>,
                                            callback: Callback, ext: Externals)
    requires Stops(s, seen + Decoded(before, ext), callback, ext)
    ensures Accepted(before + [s] + after, seen, callback, ext) == Accepted(before, seen, callback, ext)
    decreases |before|
  {
    var all := before + [s] + after;
    if before == [] {
      assert seen + Decoded(before, ext) == seen;
      assert all[0] == s;
    } else {
      assert all[0] == before[0];
      assert all[1..] == before[1..] + [s] + after;
      if before[0].Row? {
        var r := DecodeRow(before[0].columns, ext);
        assert seen + Decoded(before, ext) == seen + [r] + Decoded(before[1..], ext);
        AcceptedStopsAt(before[1..], s, after, seen + [r], callback, ext);
      }
    }
  }

  /**
   * Only the steps before a stopping step matter: the load over the whole
   * sequence gives what it gives over the steps before it.
   */
  lemma AcceptedStopsAtFirst(steps: seq<Step>, n: nat, seen: seq<Record>, callback: Callback, ext: Externals)
    requires n < |steps| && Stops(steps[n], seen + Decoded(steps[..n], ext), callback, ext)
    ensures Accepted(steps, seen, callback, ext) == Accepted(steps[..n], seen, callback, ext)
  {
    assert steps == steps[..n] + [steps[n]] + steps[n + 1..];
    AcceptedStopsAt(steps[..n], steps[n], steps[n + 1..], seen, callback, ext);
  }

  /** A callback that never answers positively leaves the list unchanged. */
  lemma {:induction false} NothingAccepted(steps: seq<Step>, seen: seq<Record>, callback: Callback, ext: Externals)
    requires forall h, r :: callback(h, r).answer <= 0
    ensures Accepted(steps, seen, callback, ext) == []
    decreases |steps|
  {
    if steps != [] && !Stops(steps[0], seen, callback, ext) {
      NothingAccepted(steps[1..], seen + [DecodeRow(steps[0].columns, ext)], callback, ext);
    }
  }

  /**
   * The `i`-th step is a row the callback, handed it after the rows before
   * it, answered positively, leaving `r`.
   */
  predicate PassedAt(steps: seq<Step>, i: nat, seen: seq<Record>, callback: Callback, ext: Externals, r: Record)
    requires i < |steps| && steps[i].Row?
  {
    var v := callback(seen + Decoded(steps[..i], ext), DecodeRow(steps[i].columns, ext));
    v.answer > 0 && r == v.record
  }

  /**
   * Every appended record is what the callback left of a decoded row it
   * answered positively, handed after the rows before it.
   */
  lemma {:induction false} AcceptedPassCallback(steps: seq<Step>, seen: seq<Record>, callback: Callback, ext: Externals)
    ensures forall r :: r in Accepted(steps, seen, callback, ext) ==>
      exists i :: 0 <= i < |steps| && steps[i].Row? && PassedAt(steps, i, seen, callback, ext, r)
    decreases |steps|
  {
    if steps != [] && !Stops(steps[0], seen, callback, ext) {
      var d := DecodeRow(steps[0].columns, ext);
      var tail := steps[1..];
      var more := seen + [d];
      AcceptedPassCallback(tail, more, callback, ext);
      forall r | r in Accepted(steps, seen, callback, ext)
        ensures exists i :: 0 <= i < |steps| && steps[i].Row? && PassedAt(steps, i, seen, callback, ext, r)
      {
        if r in Accepted(tail, more, callback, ext) {
          var i :| 0 <= i < |tail| && tail[i].Row? && PassedAt(tail, i, more, callback, ext, r);
          assert steps[i + 1] == tail[i];
          assert steps[..i + 1][0] == steps[0] && steps[..i + 1][1..] == tail[..i];
          assert seen + Decoded(steps[..i + 1], ext) == more + Decoded(tail[..i], ext);
        } else {
          assert steps[..0] == [];
          assert seen + Decoded(steps[..0], ext) == seen;
        }
      }
    }
  }

  /** What a row the callback does not abort on appends: nothing for a zero answer, else the record it leaves. */
  function Kept(s: Step, seen: seq<Record>, callback: Callback, ext: Externals): seq<Record>
    requires s.Row?
  {
    var v := callback(seen, DecodeRow(s.columns, ext));
    if v.answer == 0 then [] else [v.record]
  }

  /** One step of the load that does not stop it. */
  lemma AcceptedStep(steps: seq<Step>, seen: seq<Record>, callback: Callback, ext: Externals)
    requires steps != [] && !Stops(steps[0], seen, callback, ext)
    ensures Accepted(steps, seen, callback, ext) ==
      Kept(steps[0], seen, callback, ext) + Accepted(steps[1..], seen + [DecodeRow(steps[0].columns, ext)], callback, ext)
  {
  }

  /** The rows handed before step `j + 1` are the first row's, then those handed before step `j` of the rest. */
  lemma HandedAfterFirst(steps: seq<Step>, j: nat, seen: seq<Record>, ext: Externals)
    requires j < |steps| && steps[0].Row?
    ensures seen + Decoded(steps[..j + 1], ext) == seen + [DecodeRow(steps[0].columns, ext)] + Decoded(steps[1..][..j], ext)
  {
    assert steps[..j + 1][0] == steps[0] && steps[..j + 1][1..] == steps[1..][..j];
  }

  /**
   * While no step stops the load, the load splits at any point: what the
   * first `n` steps append, then what the rest append with the callback
   * handed the rows of the first `n`.
   */
  lemma {:induction false} AcceptedSplit(steps: seq<Step>, n: nat, seen: seq<Record>, callback: Callback, ext: Externals)
    requires n <= |steps|
    requires forall j :: 0 <= j < n ==> !Stops(steps[j], seen + Decoded(steps[..j], ext), callback, ext)
    ensures Accepted(steps, seen, callback, ext) ==
      Accepted(steps[..n], seen, callback, ext) + Accepted(steps[n..], seen + Decoded(steps[..n], ext), callback, ext)
    decreases n
  {
    assert steps[..0] == [];
    assert seen + Decoded(steps[..0], ext) == seen;
    if n == 0 {
      assert steps[0..] == steps;
    } else {
      assert !Stops(steps[0], seen, callback, ext);
      var more := seen + [DecodeRow(steps[0].columns, ext)];
      var tail := steps[1..];
      forall j | 0 <= j < n - 1
        ensures !Stops(tail[j], more + Decoded(tail[..j], ext), callback, ext)
      {
        assert !Stops(steps[j + 1], seen + Decoded(steps[..j + 1], ext), callback, ext);
        HandedAfterFirst(steps, j, seen, ext);
        assert tail[j] == steps[j + 1];
      }
      AcceptedSplit(tail, n - 1, more, callback, ext);
      AcceptedStep(steps, seen, callback, ext);
      AcceptedStep(steps[..n], seen, callback, ext);
      assert steps[..n][0] == steps[0] && steps[..n][1..] == tail[..n - 1];
      assert tail[n - 1..] == steps[n..];
      HandedAfterFirst(steps, n - 1, seen, ext);
    }
  }

  /**
   * Every row the callback answers positively before the load stops is
   * appended, as the record the callback leaves, right after the records
   * the rows before it appended: it is the k-th appended record, k being how
   * many of the rows before it were accepted.
   */
  lemma AcceptedComplete(steps: seq<Step>, i: nat, seen: seq<Record>, callback: Callback, ext: Externals)
    requires i < |steps| && steps[i].Row?
    requires forall j :: 0 <= j < i ==> !Stops(steps[j], seen + Decoded(steps[..j], ext), callback, ext)
    requires callback(seen + Decoded(steps[..i], ext), DecodeRow(steps[i].columns, ext)).answer > 0
    ensures var k := |Accepted(steps[..i], seen, callback, ext)|;
      k < |Accepted(steps, seen, callback, ext)| &&
      Accepted(steps, seen, callback, ext)[..k] == Accepted(steps[..i], seen, callback, ext) &&
      Accepted(steps, seen, callback, ext)[k] ==
        callback(seen + Decoded(steps[..i], ext), DecodeRow(steps[i].columns, ext)).record
  {
    AcceptedSplit(steps, i, seen, callback, ext);
    assert steps[i..][0] == steps[i];
  }

  /** The decoded record of every row, in order. */
  function AllDecoded(steps: seq<Step>, ext: Externals): seq<Record>
    requires forall i :: 0 <= i < |steps| ==> steps[i].Row?
  {
    seq(|steps|, i requires 0 <= i < |steps| => DecodeRow(steps[i].columns, ext))
  }

  /**
   * A callback that accepts everything and leaves records as they are,
   * over rows followed by completion, loads every decoded row.
   */
  lemma {:induction false} AllAccepted(steps: seq<Step>, seen: seq<Record>, callback: Callback, ext: Externals)
    requires forall i :: 0 <= i < |steps| ==> steps[i].Row?
    requires forall h, r :: callback(h, r).answer > 0 && callback(h, r).record == r
    ensures Accepted(steps + [Done], seen, callback, ext) == AllDecoded(steps, ext)
    decreases |steps|
  {
    if steps == [] {
      assert (steps + [Done])[0] == Done;
    } else {
      var all := steps + [Done];
      assert all[0] == steps[0];
      assert all[1..] == steps[1..] + [Done];
      AllAccepted(steps[1..], seen + [DecodeRow(steps[0].columns, ext)], callback, ext);
      assert AllDecoded(steps, ext) == [DecodeRow(steps[0].columns, ext)] + AllDecoded(steps[1..], ext);
    }
  }

  /**
   * A bounded scan, as a callback keeping a counter in `user_data` does it:
   * accept the first `limit` records handed, then abort.
   */
  function FirstRows(limit: nat): Callback
  {
    (seen: seq<Record>, r: Record) => if |seen| < limit then Verdict(1, r) else Verdict(-1, r)
  }

  /** The bounded scan loads the first `limit` decoded rows, or all of them when there are fewer. */
  lemma {:induction false} FirstRowsLoadsPrefix(steps: seq<Step>, seen: seq<Record>, limit: nat, ext: Externals)
    requires forall i :: 0 <= i < |steps| ==> steps[i].Row?
    requires |seen| <= limit
    ensures var m := if |steps| < limit - |seen| then |steps| else limit - |seen|;
      Accepted(steps, seen, FirstRows(limit), ext) == AllDecoded(steps, ext)[..m]
    decreases |steps|
  {
    if steps != [] && |seen| < limit {
      var r := DecodeRow(steps[0].columns, ext);
      FirstRowsLoadsPrefix(steps[1..], seen + [r], limit, ext);
      var m := if |steps| < limit - |seen| then |steps| else limit - |seen|;
      assert AllDecoded(steps, ext)[..m] == [r] + AllDecoded(steps[1..], ext)[..m - 1];
    }
  }
}
