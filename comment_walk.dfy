/**
 * The nested `walk` of `extract_post` (main.py): the comment tree of a post,
 * flattened into one table row per comment, parent before replies and siblings
 * in order, descending only below comments (`kind == "t1"`) whose `replies` is
 * a listing.
 */
module CommentWalk {
  import opened Json

  /** A listing child: its `kind` (`Null` when missing) and its `data`. */
  datatype Thing = Thing(kind: Value, data: Node)

  /**
   * A child's `data`: its `id`, its other scalar members, and `replies`, which
   * is a listing object or anything else (Reddit sends `""` when there are none).
   */
  datatype Node = Node(id: Value, fields: Fields, replies: Replies)

  /** `d["replies"]["data"]["children"]` when `replies` is a dict; `NotListing` otherwise. */
  datatype Replies = Listing(children: seq<Thing>) | NotListing

  /** A table row. */
  type Row = seq<Value>

  /** The header of `comment.csv`. */
  const Header: Row := [Str("id"), Str("parent_id"), Str("body"), Str("link_id"),
                        Str("created_utc"), Str("author"), Str("score"), Str("is_op")]

  /** `d.get("author", "")`, for a comment or a post. */
  function AuthorOf(d: Fields): Value {
    Get(d, "author", Str(""))
  }

  /** The row of one comment. `is_op` compares the two authors after their defaults. */
  function RowOf(d: Node, postAuthor: Value): Row {
    [d.id, Get(d.fields, "parent_id", Str("")), Get(d.fields, "body", Str("")),
     Get(d.fields, "link_id", Str("")), Get(d.fields, "created_utc", Int(0)),
     AuthorOf(d.fields), Get(d.fields, "score", Int(0)), Bool(AuthorOf(d.fields) == postAuthor)]
  }

  predicate IsComment(t: Thing) {
    t.kind == Str("t1")
  }

  /** The rows `walk(children)` appends, in order. */
  function Flatten(children: seq<Thing>, postAuthor: Value): seq<Row>
    decreases children
  {
    if children == [] then []
    else FlattenOne(children[0], postAuthor) + Flatten(children[1..], postAuthor)
  }

  /** The rows one child contributes: none unless it is a comment; then its own row and its replies'. */
  function FlattenOne(t: Thing, postAuthor: Value): seq<Row>
    decreases t
  {
    if !IsComment(t) then []
    else [RowOf(t.data, postAuthor)] + (match t.data.replies
      case Listing(cs) => Flatten(cs, postAuthor)
      case NotListing => [])
  }

  /**
   * `walk(children)`: appends to `comments` (here, `rows`) as it goes, recursing
   * into each comment's replies.
   */
  method Walk(children: seq<Thing>, postAuthor: Value, rows: seq<Row>) returns (rows': seq<Row>)
    ensures rows' == rows + Flatten(children, postAuthor)
    decreases children
  {
    rows' := rows;
    var i := 0;
    while i < |children|
      invariant i <= |children|
      invariant rows' == rows + Flatten(children[..i], postAuthor)
    {
      FlattenStep(children, i, postAuthor);
      rows' := Visit(children[i], postAuthor, rows');
      i := i + 1;
    }
    assert children[..|children|] == children;
  }

  /** One pass of `walk`'s loop: skip a non-comment; else append its row and walk its replies if they are a dict. */
  method Visit(c: Thing, postAuthor: Value, rows: seq<Row>) returns (rows': seq<Row>)
    ensures rows' == rows + FlattenOne(c, postAuthor)
    decreases c
  {
    if !IsComment(c) {
      return rows;
    }
    var d := c.data;
    rows' := rows + [RowOf(d, postAuthor)];
    if d.replies.Listing? {
      rows' := Walk(d.replies.children, postAuthor, rows');
    }
  }

  // ---------------------------------------------------------------------------

  lemma {:induction false} FlattenConcat(a: seq<Thing>, b: seq<Thing>, postAuthor: Value)
    ensures Flatten(a + b, postAuthor) == Flatten(a, postAuthor) + Flatten(b, postAuthor)
  {
    if a == [] {
      assert a + b == b;
    } else {
      assert (a + b)[0] == a[0];
      assert (a + b)[1..] == a[1..] + b;
      FlattenConcat(a[1..], b, postAuthor);
    }
  }

  /** One more child appends its rows. */
  lemma FlattenStep(children: seq<Thing>, i: nat, postAuthor: Value)
    requires i < |children|
    ensures Flatten(children[..i + 1], postAuthor)
      == Flatten(children[..i], postAuthor) + FlattenOne(children[i], postAuthor)
  {
    assert children[..i + 1] == children[..i] + [children[i]];
    FlattenConcat(children[..i], [children[i]], postAuthor);
    assert [children[i]][1..] == [];
  }

  /**
   * A comment reached by the walk: a comment among `children`, or one reached
   * below a comment among them whose replies are a listing.
   */
  ghost predicate Reached(children: seq<Thing>, d: Node)
    decreases Listing(children), 1
  {
    exists i :: 0 <= i < |children| && ReachedFrom(children, i, d)
  }

  ghost predicate ReachedFrom(children: seq<Thing>, i: int, d: Node)
    requires 0 <= i < |children|
    decreases Listing(children), 0
  {
    IsComment(children[i]) &&
    (children[i].data == d ||
     (children[i].data.replies.Listing? && Reached(children[i].data.replies.children, d)))
  }

  /** A row of the walk is a row of one of the children. */
  lemma {:induction false} FlattenMembers(children: seq<Thing>, postAuthor: Value, row: Row)
    ensures row in Flatten(children, postAuthor) <==>
      exists i :: 0 <= i < |children| && row in FlattenOne(children[i], postAuthor)
  {
    if children != [] {
      FlattenMembers(children[1..], postAuthor, row);
      forall i | 1 <= i < |children|
        ensures children[1..][i - 1] == children[i]
      {
      }
      if exists i :: 0 <= i < |children| && row in FlattenOne(children[i], postAuthor) {
        var i :| 0 <= i < |children| && row in FlattenOne(children[i], postAuthor);
        if i > 0 {
          assert row in FlattenOne(children[1..][i - 1], postAuthor);
        }
      }
    }
  }

  /** The rows are exactly those of the comments the walk reaches. */
  lemma {:induction false} RowsAreReachedComments(children: seq<Thing>, postAuthor: Value, row: Row)
    ensures row in Flatten(children, postAuthor) <==>
      exists d :: Reached(children, d) && row == RowOf(d, postAuthor)
    decreases Listing(children), 1
  {
    FlattenMembers(children, postAuthor, row);
    if row in Flatten(children, postAuthor) {
      var i :| 0 <= i < |children| && row in FlattenOne(children[i], postAuthor);
      RowsOfChild(children, i, postAuthor, row);
      var d :| ReachedFrom(children, i, d) && row == RowOf(d, postAuthor);
      assert Reached(children, d);
    }
    if exists d :: Reached(children, d) && row == RowOf(d, postAuthor) {
      var d :| Reached(children, d) && row == RowOf(d, postAuthor);
      ReachedWitness(children, d);
      var i :| 0 <= i < |children| && ReachedFrom(children, i, d);
      RowsOfChild(children, i, postAuthor, row);
      assert row in FlattenOne(children[i], postAuthor);
    }
  }

  /** A reached comment is reached from one of the children. */
  lemma ReachedWitness(children: seq<Thing>, d: Node)
    requires Reached(children, d)
    ensures exists i :: 0 <= i < |children| && ReachedFrom(children, i, d)
  {
  }

  /** The rows of one child are those of the comments reached through it. */
  lemma {:induction false} RowsOfChild(children: seq<Thing>, i: nat, postAuthor: Value, row: Row)
    requires i < |children|
    ensures row in FlattenOne(children[i], postAuthor) <==>
      exists d :: ReachedFrom(children, i, d) && row == RowOf(d, postAuthor)
    decreases Listing(children), 0
  {
    var t := children[i];
    if IsComment(t) {
      if t.data.replies.Listing? {
        var cs := t.data.replies.children;
        RowsAreReachedComments(cs, postAuthor, row);
        if row in FlattenOne(t, postAuthor) && row != RowOf(t.data, postAuthor) {
          assert row in Flatten(cs, postAuthor);
          var d :| Reached(cs, d) && row == RowOf(d, postAuthor);
          assert ReachedFrom(children, i, d);
        }
      }
      assert ReachedFrom(children, i, t.data);
    }
  }

  /** Every row's `is_op` says whether its author, defaulted to `""`, is the post's. */
  lemma IsOpMeansSameAuthor(children: seq<Thing>, postAuthor: Value, row: Row)
    requires row in Flatten(children, postAuthor)
    ensures |row| == |Header| && row[7] == Bool(row[5] == postAuthor)
  {
    RowsAreReachedComments(children, postAuthor, row);
  }

  /** A comment row comes first, before any of its replies' rows. */
  lemma ParentBeforeReplies(t: Thing, rest: seq<Thing>, postAuthor: Value)
    requires IsComment(t)
    ensures Flatten([t] + rest, postAuthor) != []
    ensures Flatten([t] + rest, postAuthor)[0] == RowOf(t.data, postAuthor)
  {
    assert ([t] + rest)[0] == t;
    assert ([t] + rest)[1..] == rest;
  }

  /** A child that is not a comment contributes nothing, however many comments lie below it. */
  lemma NonCommentSkipped(t: Thing, rest: seq<Thing>, postAuthor: Value)
    requires !IsComment(t)
    ensures Flatten([t] + rest, postAuthor) == Flatten(rest, postAuthor)
  {
    assert ([t] + rest)[0] == t;
    assert ([t] + rest)[1..] == rest;
  }

  /** A comment and a post that both lack an author count as the post's author: `"" == ""`. */
  lemma MissingAuthorsAreOp(id: Value)
    ensures RowOf(Node(id, map[], NotListing), AuthorOf(map[]))[7] == Bool(true)
  {
    assert AuthorOf(map[]) == Str("");
  }
}
