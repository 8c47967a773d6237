/**
 * The output writer `save_outputs` (test.py): a flat table of the records and one
 * JSON document per record under `basedir/subreddit/slug/post_id.json`.
 *
 * The table is the sequence of rows `to_csv` writes; the document tree is a map
 * from a path, given as its components, to the record stored there.
 */
module OutputWriter {
  import opened Records
  import opened Slug

  /** A table row: one cell per column. */
  type Row = seq<string>

  /** A path below the file system root, one component per element. */
  type Path = seq<string>

  /** The table's column names, in order. The comments are not a column. */
  const Columns: Row := ["post_id", "subreddit", "created_utc", "author", "title", "body", "permalink"]

  /** The row of one record, in the order of `Columns`. */
  function RowOf(r: Post): Row {
    [r.postId, r.subreddit, r.createdUtc, r.author, r.title, r.body, r.permalink]
  }

  /** The data rows of the table, one per record. */
  function Rows(records: seq<Post>): (rows: seq<Row>)
    ensures |rows| == |records|
    ensures forall i :: 0 <= i < |records| ==> rows[i] == RowOf(records[i]) && |rows[i]| == |Columns|
  {
    if records == [] then [] else [RowOf(records[0])] + Rows(records[1..])
  }

  /**
   * What `to_csv` writes: the header and the data rows. A frame built from no
   * records has no columns, so no header is written either.
   */
  function Table(records: seq<Post>): seq<Row> {
    if records == [] then [] else [Columns] + Rows(records)
  }

  /** `json_basedir / subreddit / slugify(title) / f"{post_id}.json"`. */
  function JsonPath(basedir: string, r: Post): Path {
    [basedir, r.subreddit, Slugify(r.title, DefaultMaxLen), r.postId + ".json"]
  }

  /**
   * The slug component is a single, non-empty, separator-free name; the last
   * component is the post id with `.json`.
   */
  lemma JsonPathShape(basedir: string, r: Post)
    ensures var p := JsonPath(basedir, r);
      && |p| == 4 && p[0] == basedir && p[1] == r.subreddit && p[3] == r.postId + ".json"
      && p[2] != [] && SlugAlphabet(p[2]) && '/' !in p[2] && p[2] != "." && p[2] != ".."
  {
    var slug := Slugify(r.title, DefaultMaxLen);
    assert '.' !in slug;
    assert slug != "." && slug != "..";
  }

  /** The document tree after writing the records in order, each write replacing what the path held. */
  function WriteAll(tree: map<Path, Post>, basedir: string, records: seq<Post>): map<Path, Post> {
    if records == [] then tree
    else
      var last := records[|records| - 1];
      WriteAll(tree, basedir, records[..|records| - 1])[JsonPath(basedir, last) := last]
  }

  /** `save_outputs`: the table replaces the CSV file; the loop writes one document per record. */
  method SaveOutputs(records: seq<Post>, basedir: string, tree: map<Path, Post>)
    returns (table: seq<Row>, tree': map<Path, Post>)
    ensures table == Table(records)
    ensures tree' == WriteAll(tree, basedir, records)
  {
    table := if records == [] then [] else [Columns] + Rows(records);
    tree' := tree;
    var i := 0;
    while i < |records|
      invariant i <= |records|
      invariant tree' == WriteAll(tree, basedir, records[..i])
    {
      var r := records[i];
      var path := JsonPath(basedir, r);
      tree' := tree'[path := r];
      WriteAllStep(tree, basedir, records, i);
      i := i + 1;
    }
    assert records[..|records|] == records;
  }

  /** Writing one more record of the input adds its document on top. */
  lemma WriteAllStep(tree: map<Path, Post>, basedir: string, records: seq<Post>, i: nat)
    requires i < |records|
    ensures WriteAll(tree, basedir, records[..i + 1])
      == WriteAll(tree, basedir, records[..i])[JsonPath(basedir, records[i]) := records[i]]
  {
    var pre := records[..i + 1];
    assert pre[..|pre| - 1] == records[..i];
    assert pre[|pre| - 1] == records[i];
  }

  /** The table has the header and then exactly one row per record, in input order. */
  lemma TableShape(records: seq<Post>)
    requires records != []
    ensures var t := Table(records);
      |t| == |records| + 1 && t[0] == Columns &&
      forall i :: 0 <= i < |records| ==> t[i + 1] == RowOf(records[i])
  {
  }

  /** Writing the records is the old tree overridden by the documents the records alone produce. */
  lemma {:induction false} WriteAllIsUnion(tree: map<Path, Post>, basedir: string, records: seq<Post>)
    ensures WriteAll(tree, basedir, records) == tree + WriteAll(map[], basedir, records)
  {
    if records != [] {
      WriteAllIsUnion(tree, basedir, records[..|records| - 1]);
    }
  }

  /** A path no record maps to keeps whatever it held before. */
  lemma {:induction false} UntouchedPathKept(tree: map<Path, Post>, basedir: string, records: seq<Post>, p: Path)
    requires forall j :: 0 <= j < |records| ==> JsonPath(basedir, records[j]) != p
    ensures p in WriteAll(tree, basedir, records) <==> p in tree
    ensures p in tree ==> WriteAll(tree, basedir, records)[p] == tree[p]
  {
    if records != [] {
      UntouchedPathKept(tree, basedir, records[..|records| - 1], p);
    }
  }

  /** For records sharing a path, the last one written is the one stored. */
  lemma {:induction false} LastWriteWins(tree: map<Path, Post>, basedir: string, records: seq<Post>, i: nat)
    requires i < |records|
    requires forall j :: i < j < |records| ==> JsonPath(basedir, records[j]) != JsonPath(basedir, records[i])
    ensures JsonPath(basedir, records[i]) in WriteAll(tree, basedir, records)
    ensures WriteAll(tree, basedir, records)[JsonPath(basedir, records[i])] == records[i]
  {
    if i < |records| - 1 {
      var init := records[..|records| - 1];
      assert forall j :: i < j < |init| ==> init[j] == records[j];
      LastWriteWins(tree, basedir, init, i);
    }
  }

  /** Running the writer again on the same records changes nothing: the same paths get the same documents. */
  lemma WriteAllIdempotent(tree: map<Path, Post>, basedir: string, records: seq<Post>)
    ensures WriteAll(WriteAll(tree, basedir, records), basedir, records) == WriteAll(tree, basedir, records)
  {
    var u := WriteAll(map[], basedir, records);
    WriteAllIsUnion(tree, basedir, records);
    WriteAllIsUnion(tree + u, basedir, records);
    assert (tree + u) + u == tree + u;
  }
}
