/**
 * `extract_post(url, headers)` (main.py): derive the post id, fetch the post's
 * JSON with retries, then append one row to `post.csv` and the flattened comment
 * tree to `comment.csv`.
 */
module ExtractPost {
  import opened Options
  import opened Json
  import opened PostUrl
  import opened Fetch
  import opened CommentWalk
  import opened CsvFile

  /** The post: `data[0]["data"]["children"][0]["data"]`, its `id` and its other members. */
  datatype PostNode = PostNode(id: Value, fields: Fields)

  /** A parsed answer: the post, and the top-level comment listing `data[1]["data"]["children"]`. */
  datatype Thread = Thread(post: PostNode, comments: seq<Thing>)

  /** The two output files. */
  datatype Files = Files(posts: seq<CsvFile.Row>, comments: seq<CsvFile.Row>)

  /** How one call ends. `BadUrl` and `RequestRaised` are exceptions that escape the call. */
  datatype Extraction =
    | Saved(postId: Value, comments: nat)  // both files appended
    | NoData                              // three rejected answers: returns without writing
    | BadUrl                              // `split("/")[-2]` raised `IndexError`
    | RequestRaised(attempt: nat)         // `requests.get` raised

  /** A call's outcome together with the files it leaves. */
  datatype Extracted = Extracted(outcome: Extraction, files: Files)

  /** The header of `post.csv`. */
  const PostHeader: CsvFile.Row := [Str("id"), Str("title"), Str("body"), Str("flair"), Str("created_utc"),
                                    Str("author"), Str("score"), Str("upvote_ratio"), Str("num_comments")]

  /** The row of the post, each member defaulted as the source does. */
  function PostRow(p: PostNode): CsvFile.Row {
    [p.id, Get(p.fields, "title", Str("")), Get(p.fields, "selftext", Str("")),
     Get(p.fields, "link_flair_text", Str("")), Get(p.fields, "created_utc", Int(0)),
     AuthorOf(p.fields), Get(p.fields, "score", Int(0)),
     Get(p.fields, "upvote_ratio", Float("0.0")), Get(p.fields, "num_comments", Int(0))]
  }

  /** The comment rows of a thread, `is_op` judged against the post's author. */
  function CommentRows(t: Thread): seq<CsvFile.Row> {
    Flatten(t.comments, AuthorOf(t.post.fields))
  }

  /** The files after a thread is saved: one post row, then all its comment rows. */
  function Store(files: Files, t: Thread): Files {
    Files(Append(files.posts, PostHeader, [PostRow(t.post)]),
          Append(files.comments, CommentWalk.Header, CommentRows(t)))
  }

  /** What one call does, given the answers the API would give. */
  function Extract(url: string, answer: Request -> Response<Thread>, cookie: string, files: Files): Extracted {
    match PostIdOf(url)
    case None => Extracted(BadUrl, files)
    case Some(id) =>
      match Retry(answer, ApiUrl(id), cookie, 0)
      case Got(t, _) => Extracted(Saved(t.post.id, |CommentRows(t)|), Store(files, t))
      case GaveUp => Extracted(NoData, files)
      case Died(k) => Extracted(RequestRaised(k), files)
  }

  /** The call itself: the request loop, the post row, the walk, the comment rows. */
  method ExtractPost(url: string, answer: Request -> Response<Thread>, cookie: string, files: Files)
    returns (outcome: Extraction, files': Files)
    ensures Extracted(outcome, files') == Extract(url, answer, cookie, files)
  {
    var postId := PostIdOf(url);
    if postId.None? {
      return BadUrl, files;
    }
    var api := ApiUrl(postId.value);
    var fetched := FetchWithRetry(answer, api, cookie);
    match fetched
    case GaveUp =>
      return NoData, files;
    case Died(k) =>
      return RequestRaised(k), files;
    case Got(t, _) =>
      var posts := Append(files.posts, PostHeader, [PostRow(t.post)]);
      var rows := Walk(t.comments, AuthorOf(t.post.fields), []);
      var comments := Append(files.comments, CommentWalk.Header, rows);
      return Saved(t.post.id, |rows|), Files(posts, comments);
  }

  // ---------------------------------------------------------------------------

  /** A call only ever adds rows: both files keep what they held as a prefix. */
  lemma ExtractOnlyAppends(url: string, answer: Request -> Response<Thread>, cookie: string, files: Files)
    ensures var e := Extract(url, answer, cookie, files);
      files.posts <= e.files.posts && files.comments <= e.files.comments
  {
  }

  /** Unless the post is saved, neither file is touched. */
  lemma FailureWritesNothing(url: string, answer: Request -> Response<Thread>, cookie: string, files: Files)
    requires !Extract(url, answer, cookie, files).outcome.Saved?
    ensures Extract(url, answer, cookie, files).files == files
  {
  }

  /**
   * A saved post adds exactly one post row, with the fetched post's id, and
   * exactly its comment rows, each header written only if its file was empty.
   */
  lemma SavedRows(url: string, answer: Request -> Response<Thread>, cookie: string, files: Files)
    requires Extract(url, answer, cookie, files).outcome.Saved?
    ensures var e := Extract(url, answer, cookie, files);
      var id := PostIdOf(url).value;
      exists t, n ::
        Retry(answer, ApiUrl(id), cookie, 0) == Got(t, n) &&
        e.files.posts == (if files.posts == [] then [PostHeader] else files.posts) + [PostRow(t.post)] &&
        e.files.comments == (if files.comments == [] then [CommentWalk.Header] else files.comments) + CommentRows(t) &&
        e.outcome.postId == t.post.id && e.files.posts[|e.files.posts| - 1][0] == t.post.id
  {
    var id := PostIdOf(url).value;
    match Retry(answer, ApiUrl(id), cookie, 0)
    case Got(t, n) =>
      assert Retry(answer, ApiUrl(id), cookie, 0) == Got(t, n);
  }

  /** Three rejected answers leave both files as they were. */
  lemma RejectedAnswersWriteNothing(url: string, answer: Request -> Response<Thread>, cookie: string, files: Files)
    requires PostIdOf(url).Some?
    requires forall j :: 0 <= j < MaxAttempts ==> Rejected(answer(Request(ApiUrl(PostIdOf(url).value), cookie, j)))
    ensures Extract(url, answer, cookie, files) == Extracted(NoData, files)
  {
    GivesUpWhenAllRejected(answer, ApiUrl(PostIdOf(url).value), cookie);
  }
}
