/**
 * `append_evidence_log`: the evidence log is a CSV file that only grows. The
 * file is modelled as its rows, or None while it does not exist; the clock
 * reading `timestamp_now()` is passed in.
 */
module Evidence {
  import opened Wrappers

  type Row = seq<string>

  const LogHeader: Row := ["Timestamp", "Action", "Filepath", "Note"]

  /** The row written for one action. */
  function LogRow(timestamp: string, action: string, filepath: string, note: string): (r: Row)
    ensures |r| == |LogHeader|
  {
    [timestamp, action, filepath, note]
  }

  /**
   * The file after one append: the row comes last; an existing file keeps
   * its rows in front of it, and a new one gets the header in front of it.
   */
  function AppendRow(file: Option<seq<Row>>, row: Row): (r: seq<Row>)
    ensures |r| >= 1 && r[|r| - 1] == row
    ensures file.None? ==> |r| == 2 && r[0] == LogHeader
    ensures file.Some? ==> |r| == |file.value| + 1 && r[..|file.value|] == file.value
  {
    match file
    case None => [LogHeader, row]
    case Some(rows) => rows + [row]
  }

  /** The file after appending `rows` one call at a time. */
  function AppendAll(file: Option<seq<Row>>, rows: seq<Row>): Option<seq<Row>> {
    if rows == [] then file
    else Some(AppendRow(AppendAll(file, rows[..|rows| - 1]), rows[|rows| - 1]))
  }

  /** Appending one more row is one more call. */
  lemma AppendAllSnoc(file: Option<seq<Row>>, rows: seq<Row>, row: Row)
    ensures AppendAll(file, rows + [row]) == Some(AppendRow(AppendAll(file, rows), row))
  {
    assert (rows + [row])[..|rows|] == rows;
  }

  /** Appending two batches is appending their concatenation. */
  lemma {:induction false} AppendAllConcat(file: Option<seq<Row>>, a: seq<Row>, b: seq<Row>)
    ensures AppendAll(file, a + b) == AppendAll(AppendAll(file, a), b)
  {
    if b == [] {
      assert a + b == a;
    } else {
      var n := |b| - 1;
      AppendAllConcat(file, a, b[..n]);
      assert (a + b)[..|a + b| - 1] == a + b[..n];
    }
  }

  /** Appending never changes a row already in the file, and adds exactly the new rows after them. */
  lemma {:induction false} AppendAllExisting(old_rows: seq<Row>, rows: seq<Row>)
    ensures AppendAll(Some(old_rows), rows) == Some(old_rows + rows)
  {
    if rows == [] {
      assert old_rows + rows == old_rows;
    } else {
      var n := |rows| - 1;
      AppendAllExisting(old_rows, rows[..n]);
      assert old_rows + rows[..n] + [rows[n]] == old_rows + rows;
    }
  }

  /** N calls starting with no file give the header once, then the N rows. */
  lemma {:induction false} AppendAllFresh(rows: seq<Row>)
    requires |rows| >= 1
    ensures AppendAll(None, rows) == Some([LogHeader] + rows)
  {
    var n := |rows| - 1;
    if n == 0 {
      assert rows[..n] == [];
      assert [LogHeader] + rows == [LogHeader, rows[0]];
    } else {
      AppendAllFresh(rows[..n]);
      assert [LogHeader] + rows[..n] + [rows[n]] == [LogHeader] + rows;
    }
  }

  /** The log file, updated in place by each append. */
  class EvidenceLog {
    var file: Option<seq<Row>>

    /** A log over a file that may already hold rows. */
    constructor(existing: Option<seq<Row>>)
      ensures file == existing
    {
      file := existing;
    }

    /** `append_evidence_log(action, filepath, note)` at time `now`. */
    method Append(now: string, action: string, filepath: string, note: string)
      modifies this
      ensures file == Some(AppendRow(old(file), LogRow(now, action, filepath, note)))
      ensures old(file).Some? ==> file.value[..|old(file).value|] == old(file).value
    {
      var row := LogRow(now, action, filepath, note);
      match file
      case None =>
        file := Some([LogHeader, row]);
      case Some(rows) =>
        file := Some(rows + [row]);
    }
  }
}
