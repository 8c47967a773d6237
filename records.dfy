/** The post record `extract_post` (test.py) builds, as handed to the crawl and the output writer. */
module Records {

  /** One reply under a top-level comment: `{"user", "comment"}`. */
  datatype Reply = Reply(user: string, comment: string)

  /** One top-level comment with its replies. */
  datatype Comment = Comment(user: string, comment: string, replies: seq<Reply>)

  /** The record of one post page. Timestamps are kept as the text the page or the clock gives. */
  datatype Post = Post(
    subreddit: string,
    postId: string,
    permalink: string,
    createdUtc: string,
    author: string,
    title: string,
    body: string,
    allComments: seq<Comment>,
    scrapedAt: string)
}
