/** The record store of app.py: `append_log(csv_path, row)` and its copy
    `save_row(path, row)` keep one table per file under `logs/`. A table is a
    sequence of rows, a row a map from column name to text; a file that does
    not exist yet reads as the empty table. */
module Records {

  type Row = map<string, string>

  /** The files of the log directory: path to table. A path that is not a key
      is a file that does not exist. */
  type Files = map<string, seq<Row>>

  /** A column of a row as read back, an absent column reading as "" (`fillna("")`). */
  function Field(row: Row, key: string): string {
    if key in row then row[key] else ""
  }

  /** `pd.read_csv(path)` when the file exists, the empty table when it does not. */
  function Read(fs: Files, path: string): seq<Row> {
    if path in fs then fs[path] else []
  }

  /** The files after one append: the table at `path` is the old table (or
      nothing) followed by `row`, the file exists, and no other file changes. */
  function Appended(fs: Files, path: string, row: Row): (after: Files)
    ensures Read(after, path) == Read(fs, path) + [row]
    ensures after.Keys == fs.Keys + {path}
    ensures forall q :: q != path ==> Read(after, q) == Read(fs, q)
  {
    fs[path := Read(fs, path) + [row]]
  }

  /** One call of `append_log` / `save_row`. */
  datatype Write = Write(path: string, row: Row)

  /** The files after a run of appends, in order. */
  function Replay(fs: Files, ws: seq<Write>): Files
    decreases |ws|
  {
    if ws == [] then fs else Replay(Appended(fs, ws[0].path, ws[0].row), ws[1..])
  }

  /** The rows of `ws` written to `path`, in order. */
  function RowsFor(ws: seq<Write>, path: string): seq<Row> {
    if ws == [] then []
    else (if ws[0].path == path then [ws[0].row] else []) + RowsFor(ws[1..], path)
  }

  /** Every table is an append-only log: after any run of appends, interleaved
      across files, a table is what it was followed by exactly the rows
      appended to it, in the order they were appended. */
  lemma {:induction false} ReplayIsLog(fs: Files, ws: seq<Write>, path: string)
    ensures Read(Replay(fs, ws), path) == Read(fs, path) + RowsFor(ws, path)
    decreases |ws|
  {
    if ws != [] {
      var next := Appended(fs, ws[0].path, ws[0].row);
      ReplayIsLog(next, ws[1..], path);
      if ws[0].path == path {
        assert Read(fs, path) + [ws[0].row] + RowsFor(ws[1..], path)
            == Read(fs, path) + ([ws[0].row] + RowsFor(ws[1..], path));
      } else {
        assert [] + RowsFor(ws[1..], path) == RowsFor(ws[1..], path);
      }
    }
  }

  /** The log directory, held in place: each append reads the whole table and
      writes it back with the new row at the end. */
  class RecordStore {
    var files: Files

    /** `os.makedirs(LOG_DIR, exist_ok=True)` at start-up: the directory is
        created when missing and kept, with every table already in it, when it
        exists. `existing` is what an earlier run left behind (`map[]` on the
        first run ever). */
    constructor (existing: Files)
      ensures files == existing
    {
      files := existing;
    }

    /** The table in `path`, empty when the file does not exist. */
    function ReadAll(path: string): seq<Row>
      reads this
    {
      Read(files, path)
    }

    /** `append_log(path, row)` (and `save_row`, the same code): a one-row
        frame, preceded by the existing table when the file exists, replaces
        the file. */
    method Append(path: string, row: Row)
      modifies this
      ensures files == Appended(old(files), path, row)
      ensures ReadAll(path) == old(ReadAll(path)) + [row]
    {
      var table := [row];
      if path in files {
        table := files[path] + table;
      }
      assert table == Read(files, path) + [row];
      files := files[path := table];
    }
  }
}
