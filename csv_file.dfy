/**
 * The CSV files `extract_post` (main.py) appends to: opened in append mode, the
 * header written only when the file is still empty (`f.tell() == 0`), then the
 * new rows. A file is the sequence of its rows.
 */
module CsvFile {
  import opened Json

  type Row = seq<Value>

  /** One append: the header first if the file is empty, then the rows. Nothing already in the file changes. */
  function Append(file: seq<Row>, header: Row, rows: seq<Row>): (file': seq<Row>)
    ensures |file'| == |file| + |rows| + (if file == [] then 1 else 0)
    ensures file <= file'
    ensures file == [] ==> file'[0] == header
    ensures file'[|file'| - |rows|..] == rows
  {
    if file == [] then [header] + rows else file + rows
  }

  /** Successive appends, one batch of rows per call. */
  function AppendAll(file: seq<Row>, header: Row, batches: seq<seq<Row>>): seq<Row>
    decreases |batches|
  {
    if batches == [] then file
    else AppendAll(Append(file, header, batches[0]), header, batches[1..])
  }

  /** All the batches' rows, in order. */
  function Concat(batches: seq<seq<Row>>): seq<Row> {
    if batches == [] then [] else batches[0] + Concat(batches[1..])
  }

  /** Appending to a file that already has rows only adds the batches' rows after them. */
  lemma {:induction false} AppendAllToNonEmpty(file: seq<Row>, header: Row, batches: seq<seq<Row>>)
    requires file != []
    ensures AppendAll(file, header, batches) == file + Concat(batches)
    decreases |batches|
  {
    if batches != [] {
      AppendAllToNonEmpty(file + batches[0], header, batches[1..]);
    }
  }

  /**
   * Starting from no file, the header appears exactly once, at the top, as soon
   * as one call has been made (even with no rows), followed by every batch's rows.
   */
  lemma HeaderOnce(header: Row, batches: seq<seq<Row>>)
    ensures AppendAll([], header, batches) == if batches == [] then [] else [header] + Concat(batches)
  {
    if batches != [] {
      AppendAllToNonEmpty([header] + batches[0], header, batches[1..]);
    }
  }

  /** Existing rows are never changed: whatever the file held stays its prefix. */
  lemma {:induction false} AppendAllKeepsPrefix(file: seq<Row>, header: Row, batches: seq<seq<Row>>)
    ensures file <= AppendAll(file, header, batches)
    decreases |batches|
  {
    if batches != [] {
      AppendAllKeepsPrefix(Append(file, header, batches[0]), header, batches[1..]);
    }
  }
}
