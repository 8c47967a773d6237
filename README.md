# Reddit crawling: a verified model

This project models the two Reddit scrapers of the repository. Each is a loop driven by
a browser, with small pure helpers around it.

- **`test.py`** is the feed scraper. It walks a subreddit's feed links with a cursor and
  filters each link early on its `href` and screen-reader text. It opens the candidates
  and keeps the posts whose title and body match a keyword. It stops at `min_posts`
  matches or after `max_posts` links. The records are then written as one CSV table and
  as one JSON document per post, under `basedir/subreddit/slug/post_id.json`.
- **`main.py`** is the search crawler. It looks up the `reddit_session` cookie and then
  scrolls a search page. Each post-title link it has not seen yet is handed to
  `extract_post`, which works in three steps:
  - it derives the post id from the URL;
  - it fetches the post's JSON, trying at most three times;
  - it appends one row to `post.csv` and one row per comment of the flattened comment
    tree to `comment.csv`.

  The crawler stops after the first round, from the second on, that brought no new
  link. The first round can never stop it, because `last_count` starts at -1.
- **`reddit_scraper_app.py`** is the web front end. Only its keyword field is modelled:
  how it parses the comma-separated text, and its default text.

The browser, the network and the file system are replaced by their answers:

- `feed` with `counts` stands for the feed that Playwright shows.
- `rounds` stands for the `href` attributes read on the search page in each pass.
- `answer(Request(url, cookie, attempt))` stands for the HTTP answers.
- The files are values: a CSV file is a sequence of rows, and the JSON documents are a
  map from path to record.

Each loop is a `method` proved equal to a recursive specification function. The
properties the source relies on are lemmas about those functions.

Modules, one per file:

| module | file | models |
|---|---|---|
| `Options` | options.dfy | an optional value |
| `Text` | text.dfy | ASCII `lower`, `k in t`, `split(sep)` |
| `Keywords` | keywords.dfy | `contains_keywords` |
| `KeywordInput` | keyword_input.dfy | the keyword field's parsing and its default text |
| `Slug` | slug.dfy | `slugify` |
| `Records` | records.dfy | the post record the feed scraper builds |
| `FeedScraper` | feed_scraper.dfy | `scrape_subreddit` |
| `OutputWriter` | output_writer.dfy | `save_outputs` |
| `PostUrl` | post_url.dfy | `post_id` and the API endpoint |
| `Json` | json.dfy | JSON scalars and `dict.get` |
| `Fetch` | fetch.dfy | the request loop with retries |
| `CommentWalk` | comment_walk.dfy | the nested `walk` over the comment tree |
| `CsvFile` | csv_file.dfy | appending to a CSV file, header only when it is empty |
| `ExtractPost` | extract_post.dfy | `extract_post` of `main.py` |
| `SessionCookie` | session_cookie.dfy | the `reddit_session` lookup |
| `SearchCrawl` | search_crawl.dfy | the crawl loop of `main` |

Where the documentation and the code disagree, the model follows the code:

- **The underscore.** The docstring of `slugify` says underscores are kept. The
  substitution `[^a-z0-9]+` replaces them. `Slug.Slugify` proves that no underscore
  survives.
- **Failed navigation.** A failed `post_tab.goto` is not caught anywhere. It ends
  `scrape_subreddit` with an exception; it does not skip the link.
- **Idempotence.** The slug is not idempotent in general, as `Slug.TruncationLeavesDash`
  and `Slug.ShortFallbackShrinks` show. It is idempotent under the conditions of
  `Slug.SlugifyIdempotent`.

## Model

| member | source | states |
|---|---|---|
| Text.Contains | test.py:31 | the decision procedure for `k in t`; `Text.ContainsIsOccurs` proves it holds exactly when `k` is a contiguous block of `t` |
| Text.Lower | test.py:30 | lowering keeps the length and maps each character by itself |
| Text.LowerIdempotent | test.py:30-31 | lowering twice is lowering once |
| Text.ContainsIsOccurs | test.py:31 | the substring test holds exactly when the keyword is a contiguous block of the text |
| Text.LowerConcat | test.py:183 | lowering a concatenation lowers each part |
| Text.Split | reddit_scraper_app.py:36 | splitting always yields at least one piece |
| Text.SplitPiecesLackSep | reddit_scraper_app.py:36 | no piece contains the separator |
| Text.SplitWithout | reddit_scraper_app.py:36 | a string without the separator is a single piece |
| Text.SplitAt | main.py:13 | a separator between two strings splits into the pieces of each, concatenated |
| Text.SplitFront | main.py:13 | a separator in front adds an empty piece; any other character joins the first piece |
| Text.OccursInContext | test.py:31 | helper for `Keywords.ContainsExtended`: a block of `t` is a block of `a + t + b` |
| Keywords.ContainsKeywords | test.py:29-31 | `contains_keywords`; its meaning, "some lowered keyword is a block of the lowered text", is proved by `Keywords.MatchesIffSomeKeyword` and `Keywords.MatchesIffOccurs`, its case blindness by `Keywords.CaseInsensitive` |
| Keywords.MatchesIffSomeKeyword | test.py:29-31 | the matcher holds iff some lowered keyword occurs in the lowered text; it never holds for an empty list and always holds when `""` is a keyword |
| Keywords.MatchesIffOccurs | test.py:29-31 | the same iff, stated with the substring relation rather than its decision procedure |
| Keywords.CaseInsensitive | test.py:19 | lowering the text, or every keyword, does not change the verdict |
| Keywords.LowerAll | test.py:31 | the lowered list has the same length, each keyword lowered in place |
| Keywords.MatchInPart | test.py:183 | a post whose title alone or body alone matches is admitted on `title + " " + body` |
| Keywords.HitInLeft | test.py:183 | a keyword hit in the left part is a hit in the joined text |
| Keywords.HitInRight | test.py:183 | a keyword hit in the right part is a hit in the joined text |
| Keywords.ContainsExtended | test.py:31 | a substring stays a substring when text is added on either side |
| KeywordInput.ParseKeywords | reddit_scraper_app.py:36 | the comma-split, stripped, non-empty keywords; `KeywordInput.ParsedAreClean` and `KeywordInput.NoEmptyKeyword` prove each is clean, `KeywordInput.ParseJoinRoundTrip` that it inverts `KeywordInput.JoinKeywords` |
| KeywordInput.JoinKeywords | reddit_scraper_app.py:29 | the `", "`-joined default text; `KeywordInput.ParseJoinRoundTrip` proves that parsing it gives back clean keywords unchanged |
| KeywordInput.Strip | reddit_scraper_app.py:36 | `str.strip()`; `KeywordInput.StripStartShape`, `KeywordInput.StripEndShape` and `KeywordInput.StripKeepsClean` prove it removes only surrounding whitespace and fixes clean keywords |
| KeywordInput.ParsedAreClean | reddit_scraper_app.py:36 | every parsed keyword is non-empty, has no comma and has no whitespace at either end |
| KeywordInput.KeptAreClean | reddit_scraper_app.py:36 | the stripped, non-empty pieces of comma-free pieces are clean |
| KeywordInput.NoEmptyKeyword | reddit_scraper_app.py:36 | the empty keyword, which matches everything, is never produced |
| KeywordInput.StripShape | reddit_scraper_app.py:36 | a stripped non-empty piece of comma-free text is clean |
| KeywordInput.StripStartShape | reddit_scraper_app.py:36 | stripping the front leaves a suffix that does not start with whitespace |
| KeywordInput.StripEndShape | reddit_scraper_app.py:36 | stripping the end leaves a prefix that does not end with whitespace |
| KeywordInput.StripKeepsClean | reddit_scraper_app.py:36 | a clean keyword is left alone by `strip()` |
| KeywordInput.KeepIgnoresLeadingSpace | reddit_scraper_app.py:36 | a leading space on a piece does not change what is kept |
| KeywordInput.ParseJoinRoundTrip | reddit_scraper_app.py:29-36 | parsing the `", "`-joined text of clean keywords gives back those keywords, so the default text parses to the default list |
| Slug.AsciiOnly | test.py:41-42 | `encode("ascii", "ignore")`; `Slug.AsciiOnlyKeepsAscii` proves ASCII text passes unchanged |
| Slug.Collapse | test.py:45 | `re.sub(r"[^a-z0-9]+", "-", ...)`; `Slug.CollapseShape`, `Slug.CollapseKeepsSlugChars` and `Slug.CollapseFixesCollapsed` prove its alphabet, that it keeps every letter and digit in order, and that it fixes collapsed text |
| Slug.Strip | test.py:45 | `strip("-")`; `Slug.StripLeadingShape`, `Slug.StripTrailingShape`, `Slug.StripCleans` and `Slug.StripFixesClean` prove it removes only outer dashes |
| Slug.Head | test.py:46 | `title[:max_len]`, with Python's negative-index slicing; `Slug.HeadIsPrefix` proves it is a prefix of length `min(n, len(s))` for non-negative `n` |
| Slug.Clean | test.py:39-45 | the title before truncation; `Slug.CleanIsClean` proves it is a clean slug and `Slug.CleanFixesSlugs` that clean slugs are fixed points |
| Slug.Slugify | test.py:34-46 | the slug is never empty; it uses only `a`-`z`, `0`-`9` and `-`, has no double dash, no leading dash and no `_`, `.` or `/`; a non-negative `max_len` bounds it unless it is the fallback |
| Slug.DropRun | test.py:45 | dropping the leading separator run never lengthens the string |
| Slug.AsciiOnlyKeepsAscii | test.py:41-42 | dropping non-ASCII characters leaves ASCII text unchanged |
| Slug.DropRunStopsAtSlugChar | test.py:45 | after a leading separator run is dropped, the string starts with a letter or digit |
| Slug.CollapseShape | test.py:45 | the substitution's output has the slug alphabet and no double dash; it is empty iff the input is; it starts with a dash iff the input starts with a separator |
| Slug.SlugCharsConcat | test.py:45 | the letters and digits of a concatenation are those of each part |
| Slug.DropRunKeepsSlugChars | test.py:45 | dropping a separator run loses no letter or digit |
| Slug.CollapseKeepsSlugChars | test.py:45 | the substitution keeps every letter and digit, in order |
| Slug.CollapseFixesCollapsed | test.py:45 | a collapsed string passes through the substitution unchanged |
| Slug.StripLeadingShape | test.py:45 | `strip("-")` drops only leading dashes and leaves a suffix not led by one |
| Slug.StripTrailingShape | test.py:45 | `strip("-")` drops only trailing dashes and leaves a prefix not ended by one |
| Slug.SliceKeepsShape | test.py:46 | a slice of a collapsed string is collapsed |
| Slug.StripCleans | test.py:45 | stripping a collapsed string gives a clean slug |
| Slug.StripFixesClean | test.py:45 | stripping leaves a clean slug unchanged |
| Slug.HeadIsPrefix | test.py:46 | `s[:n]` is a prefix of `s` of length `min(n, len(s))` for non-negative `n` |
| Slug.CleanIsClean | test.py:39-45 | the title after lowering, substitution and stripping is a clean slug |
| Slug.PrefixOfClean | test.py:46 | a prefix of a clean slug is collapsed and not led by a dash |
| Slug.FallbackIsClean | test.py:46 | `"untitled"` is a clean slug |
| Slug.NoSpecialChars | test.py:37 | the slug alphabet has no underscore, dot or slash |
| Slug.PrepFixesCollapsed | test.py:39-45 | lowering and substitution leave a collapsed string unchanged |
| Slug.CleanFixesSlugs | test.py:39-45 | a clean slug is a fixed point of the pipeline before truncation |
| Slug.SlugifyFallback | test.py:46 | a title with nothing left gives `"untitled"`, whatever `max_len` is |
| Slug.SlugifyFits | test.py:46 | a cleaned title within `max_len` is returned whole |
| Slug.SlugifyTruncates | test.py:46 | a longer cleaned title is cut to exactly `max_len` characters |
| Slug.SlugifyEmptyHead | test.py:46 | an empty truncation gives the fallback |
| Slug.SlugifyIsHead | test.py:46 | a non-empty truncation is the result, and it fits in `max_len` |
| Slug.SlugifyOfCleanSlug | test.py:45-46 | a clean slug within `max_len` is its own slug |
| Slug.SlugifyIdempotent | test.py:45-46 | for non-negative `max_len`, a slug that does not end in a dash and is not an over-long fallback is its own slug |
| Slug.TruncationLeavesDash | test.py:46 | `"abc-def"` at `max_len` 4 gives `"abc-"`, whose slug is `"abc"`, so truncation can break idempotence |
| Slug.FirstPass | test.py:46 | `"abc-def"` at `max_len` 4 gives `"abc-"` |
| Slug.SecondPass | test.py:45-46 | `"abc-"` at `max_len` 4 gives `"abc"` |
| Slug.ShortFallbackShrinks | test.py:46 | the fallback of an empty title at `max_len` 4 is cut to `"unti"` on a second pass |
| Slug.EmptyTitle | test.py:46 | an empty title gives `"untitled"` even at `max_len` 4 |
| Slug.FallbackTruncated | test.py:46 | `"untitled"` at `max_len` 4 gives `"unti"` |
| FeedScraper.PassesEarly | test.py:161-167 | the early filter on `href` and screen-reader text; `FeedScraper.TabsExactly` proves a tab is opened for exactly the links that pass it |
| FeedScraper.Admits | test.py:183-185 | the keyword check on `title + " " + body`; `FeedScraper.AdmittedMatch` proves every record passed it and `Keywords.MatchInPart` that a hit in the title or body alone suffices |
| FeedScraper.Walk | test.py:157-187 | the inner loop as a function; `FeedScraper.WalkLinks` is proved equal to it and `FeedScraper.WalkConsistent` and `FeedScraper.WalkFailure` state what it keeps and where it can fail |
| FeedScraper.Rounds | test.py:146-195 | the outer loop as a function; `FeedScraper.RoundsConsistent` proves its bounds and exits |
| FeedScraper.Run | test.py:133-199 | `scrape_subreddit` as a function; `FeedScraper.ScrapeSubreddit` is proved equal to it and `FeedScraper.RunResult` states its records, tabs and failure cases |
| FeedScraper.Visit | test.py:158-187 | a visit advances the cursor by one and adds at most one record, or fails at the cursor with the state unchanged |
| FeedScraper.BatchSize | test.py:155 | the batch never passes `max_posts`; with the corrected count it never passes the links present |
| FeedScraper.ScrapeSubreddit | test.py:133-199 | the outer loop returns exactly the outcome of the crawl specification |
| FeedScraper.WalkLinks | test.py:157-187 | the inner loop, with its `break` and `continue`s, returns exactly the outcome of the walk specification |
| FeedScraper.VisitConsistent | test.py:161-187 | a visit keeps the records and tabs equal to those of the scanned prefix |
| FeedScraper.WalkConsistent | test.py:157-187 | the inner loop keeps the counters consistent with the scanned prefix, moves the cursor by at most `n_links`, and never passes `min_posts` |
| FeedScraper.WalkFailure | test.py:157-187 | an escaping exception is raised at the cursor, within the batch, before the goal is met; a missing link is met only beyond `count` |
| FeedScraper.RoundsConsistent | test.py:146-195 | the outer loop keeps consistency and the bounds, finishes exactly at the goal or the cap, and fails only at the cursor |
| FeedScraper.RunResult | test.py:133-199 | however the crawl ends, the records are the admitted posts before the cursor in link order, the tabs are the early-filter survivors, `matched` counts the records, the cursor stays within `max_posts`, and it finishes exactly when `min_posts` or `max_posts` is reached |
| FeedScraper.AdmittedLength | test.py:183-187 | there are never more records than links scanned |
| FeedScraper.AdmittedMatch | test.py:183-185 | every record passed the keyword check on `title + " " + body` |
| FeedScraper.AdmittedFromTabs | test.py:170-185 | every record is the post of a link whose tab was opened |
| FeedScraper.TabsExactly | test.py:165-172 | a tab is opened for exactly the links that pass the early filter |
| FeedScraper.TabsIncreasing | test.py:161-187 | tabs are opened in strictly increasing link order, so no link is opened twice |
| FeedScraper.AdmittedGrows | test.py:184 | scanning further only appends records |
| FeedScraper.NoKeywordsNoRecords | test.py:29-31 | with no keywords no tab is opened and no record is kept |
| FeedScraper.WalkWithinCount | test.py:157-162 | a batch within the unvisited links never reads a missing link |
| FeedScraper.UnvisitedNeverReadsPastEnd | test.py:155-162 | with the corrected batch size the crawl never fails for a missing link |
| FeedScraper.AllLinksReadsPastEnd | test.py:155-162 | with the batch size as written, a two-link feed shown as 1 then 2 links reads link 2 and fails |
| FeedScraper.UnvisitedStaysInRange | test.py:155-162 | the same feed with the corrected batch size reads no missing link |
| FeedScraper.EmptyFeedNeverFinishes | test.py:146-195 | a feed that never shows a link never finishes: the loop has no exhaustion exit |
| OutputWriter.Table | test.py:204-216 | the CSV table; `OutputWriter.TableShape` proves it is the header and one row per record in order, and `OutputWriter.SaveOutputs` that the loop writes it |
| OutputWriter.JsonPath | test.py:222-226 | `basedir/subreddit/slug/post_id.json`; `OutputWriter.JsonPathShape` proves its four parts and a safe slug part |
| OutputWriter.WriteAll | test.py:221-227 | the document tree after the loop; `OutputWriter.WriteAllIsUnion`, `OutputWriter.UntouchedPathKept`, `OutputWriter.LastWriteWins` and `OutputWriter.WriteAllIdempotent` state what it holds |
| OutputWriter.Rows | test.py:204-215 | one row per record, in order, each holding the seven columns of its record |
| OutputWriter.SaveOutputs | test.py:202-229 | the table is the header and the rows of the records; the loop leaves the document tree of writing the records in order |
| OutputWriter.JsonPathShape | test.py:222-226 | a document path has four parts; the slug part is non-empty, separator-free and never `.` or `..`, and the last part is the post id with `.json` |
| OutputWriter.WriteAllStep | test.py:221-227 | one more record puts its document on top of the tree |
| OutputWriter.TableShape | test.py:204-216 | for records, the table is the column header and then exactly one row per record, in input order |
| OutputWriter.WriteAllIsUnion | test.py:221-227 | the new tree is the old tree overridden by the records' own documents |
| OutputWriter.UntouchedPathKept | test.py:221-227 | a path no record maps to keeps what it held |
| OutputWriter.LastWriteWins | test.py:221-227 | of records sharing a path, the last one is stored |
| OutputWriter.WriteAllIdempotent | test.py:221-227 | saving the same records twice gives the same tree as once |
| PostUrl.PostIdOf | main.py:13 | `url.rstrip("/").split("/")[-2]`, with `None` for the `IndexError`; `PostUrl.IdFromCommentsUrl`, `PostUrl.CommentsWordFromShortUrl` and `PostUrl.CrawlUrlHasId` prove which piece it picks and when it exists |
| PostUrl.ApiUrl | main.py:14 | the JSON endpoint of a post; `PostUrl.ApiUrlInjective` proves it is fixed text around the id, so distinct ids request distinct endpoints |
| PostUrl.ApiUrlInjective | main.py:14 | the endpoint starts with `https://www.reddit.com/comments/`, holds the id before a 16-character suffix, and equal endpoints come from equal ids |
| PostUrl.RStripShape | main.py:13 | `rstrip("/")` removes trailing slashes and nothing else |
| PostUrl.RStripPrefix | main.py:13 | slashes after text that does not end in one are all stripped |
| PostUrl.JoinSplit | main.py:13 | joining the pieces of a split with slashes gives the string back |
| PostUrl.IdFromCommentsUrl | main.py:13 | a URL ending `/comments/<id>/<slug>/`, with any number of final slashes, gives `<id>` |
| PostUrl.CommentsWordFromShortUrl | main.py:13 | a URL ending `/comments/<id>/` gives the word `comments`, not the id |
| PostUrl.StripSlashes | main.py:13 | trailing slashes after a non-empty slash-free last piece are stripped down to it |
| PostUrl.AllSlashes | main.py:13 | a run of slashes strips to nothing |
| PostUrl.CrawlUrlHasId | main.py:13 | every URL the crawler builds has a post id, so `[-2]` never raises there |
| PostUrl.SlashKeepsId | main.py:13 | a slash followed by text not ending in one leaves at least two pieces |
| Fetch.Retry | main.py:17-38 | the retry loop as a function; `Fetch.FetchWithRetry` is proved equal to it and `Fetch.RetryResult` states when it gives data and when it gives up |
| Fetch.FetchWithRetry | main.py:17-38 | the request loop returns exactly the outcome of the retry specification |
| Fetch.RetryResult | main.py:17-38 | data comes from the first accepted attempt after only rejected ones within three attempts; giving up follows three rejected answers; an exception comes from the first attempt that raised after only rejected ones |
| Fetch.GivesUpWhenAllRejected | main.py:36-38 | three rejected answers always end in giving up |
| Fetch.FirstAcceptedIsUsed | main.py:28-30 | an accepted first answer is used at once, after one request |
| CommentWalk.RowOf | main.py:61-66 | the eight cells of one comment row; `CommentWalk.IsOpMeansSameAuthor` proves `is_op` is the author comparison |
| CommentWalk.Flatten | main.py:55-69 | the nested walk as a function; `CommentWalk.Walk` is proved to append it and `CommentWalk.RowsAreReachedComments` that its rows are exactly the reached comments |
| CommentWalk.Walk | main.py:56-68 | the walk appends exactly the flattened rows of the children to what was collected |
| CommentWalk.Visit | main.py:57-68 | one step appends exactly the rows of one child |
| CommentWalk.FlattenConcat | main.py:57 | the rows of two child lists are those of each, in order |
| CommentWalk.FlattenStep | main.py:57-68 | one more child appends its rows |
| CommentWalk.FlattenMembers | main.py:57-68 | a row of the walk is a row of one of the children |
| CommentWalk.RowsAreReachedComments | main.py:55-69 | the rows are exactly those of the comments the walk reaches, at any depth below comments whose replies are a dict |
| CommentWalk.ReachedWitness | main.py:57-68 | a reached comment is reached from one particular child |
| CommentWalk.RowsOfChild | main.py:57-68 | the rows of one child are those of the comments reached through it |
| CommentWalk.IsOpMeansSameAuthor | main.py:61-66 | every row has eight cells, and its `is_op` says whether its defaulted author equals the post's |
| CommentWalk.ParentBeforeReplies | main.py:61-68 | a comment's row comes before any of its replies' rows |
| CommentWalk.NonCommentSkipped | main.py:58-59 | a child that is not a `t1` contributes nothing, whatever lies below it |
| CommentWalk.MissingAuthorsAreOp | main.py:65 | a comment and a post that both lack an author give `is_op` true |
| CsvFile.AppendAll | main.py:42-76 | a file after a series of appends; `CsvFile.HeaderOnce`, `CsvFile.AppendAllToNonEmpty` and `CsvFile.AppendAllKeepsPrefix` prove one header and untouched old rows |
| CsvFile.Append | main.py:42-52 | an append adds the header only to an empty file, keeps what the file held, and ends with exactly the new rows |
| CsvFile.AppendAllToNonEmpty | main.py:71-76 | appending to a non-empty file adds only the rows |
| CsvFile.HeaderOnce | main.py:42-46 | from no file, the header appears once, at the top, after the first call, followed by every batch's rows |
| CsvFile.AppendAllKeepsPrefix | main.py:42-52 | the rows a file held are never changed |
| ExtractPost.PostRow | main.py:47-52 | the nine cells of the post row; `ExtractPost.SavedRows` proves the saved row is it, with the post id first |
| ExtractPost.Extract | main.py:12-76 | `extract_post` as a function; `ExtractPost.ExtractPost` is proved equal to it, and `ExtractPost.SavedRows`, `ExtractPost.FailureWritesNothing` and `ExtractPost.ExtractOnlyAppends` state what it writes |
| ExtractPost.ExtractPost | main.py:12-76 | one call returns exactly the outcome and files of the extraction specification |
| ExtractPost.ExtractOnlyAppends | main.py:42-76 | a call only adds rows to either file |
| ExtractPost.FailureWritesNothing | main.py:36-38 | unless the post is saved, neither file changes |
| ExtractPost.SavedRows | main.py:41-76 | a saved post appends exactly one post row, with its id, and exactly its comment rows |
| ExtractPost.RejectedAnswersWriteNothing | main.py:17-38 | three rejected answers return without writing |
| SessionCookie.SessionHeader | main.py:110-116 | the cookie lookup as a function; `SessionCookie.FindSessionCookie` is proved equal to it and `SessionCookie.SessionHeaderIsFirstMatch` that it is the first `reddit_session` cookie |
| SessionCookie.FindSessionCookie | main.py:110-114 | the lookup loop returns exactly the header of the first matching cookie |
| SessionCookie.SessionHeaderIsFirstMatch | main.py:110-116 | there is no header iff no cookie is named `reddit_session`; otherwise it is `reddit_session=<value>` of the first such cookie, and never empty |
| SearchCrawl.Eligible | main.py:143 | `href and "/comments/" in href`; `SearchCrawl.ScanSound` and `SearchCrawl.ScanComplete` prove a pass dispatches from eligible anchors only and covers all of them |
| SearchCrawl.UrlOf | main.py:144 | the absolute URL of an `href`; `PostUrl.CrawlUrlHasId` proves that the URL of any `href` has a post id, so the split at main.py:13 never raises for a crawled link |
| SearchCrawl.Scan | main.py:141-150 | one pass as a function; `SearchCrawl.ScanAnchors` is proved equal to it and `SearchCrawl.ScanConsistent`, `SearchCrawl.ScanFresh` and `SearchCrawl.ScanOrder` state what it keeps |
| SearchCrawl.Crawl | main.py:134-158 | the outer loop as a function; `SearchCrawl.CrawlConsistent`, `SearchCrawl.CrawlComplete`, `SearchCrawl.CrawlStops` and `SearchCrawl.CrawlOrder` state what it keeps and when it stops |
| SearchCrawl.Run | main.py:110-158 | the cookie lookup and the crawl as a function; `SearchCrawl.CrawlSearch` is proved equal to it and `SearchCrawl.RunFacts` states its result |
| SearchCrawl.ScanAnchors | main.py:141-150 | one pass over the anchors returns exactly the scan specification's result |
| SearchCrawl.CrawlSearch | main.py:110-158 | the session lookup and the outer loop return exactly the run specification's result |
| SearchCrawl.ScanGrows | main.py:141-146 | a pass only adds to `seen` and to the dispatched URLs, and leaves `last_count` alone |
| SearchCrawl.ScanConsistent | main.py:145-148 | a pass keeps `seen` equal to the dispatched URLs, each dispatched once |
| SearchCrawl.ScanSound | main.py:141-148 | every URL a pass dispatches comes from an eligible anchor of that pass |
| SearchCrawl.ScanComplete | main.py:141-146 | after a full pass, every eligible anchor's URL is in `seen` |
| SearchCrawl.FirstAtFinds | main.py:140-143 | `FirstAt` is the position of the first eligible anchor with a URL, and is below the anchor count exactly when there is one |
| SearchCrawl.ScanFresh | main.py:145-146 | a pass dispatches only URLs that were not in `seen` when it began |
| SearchCrawl.ScanOrder | main.py:141-148 | a pass dispatches its new URLs in discovery order: of two of them, the one dispatched first has the earlier first eligible anchor |
| SearchCrawl.ScanNeverBadUrl | main.py:143-148 | a pass never stops on the URL split; only a raising request halts it |
| SearchCrawl.ExtractAllConcat | main.py:148 | extracting two URL lists in turn is extracting their concatenation |
| SearchCrawl.ScanFiles | main.py:141-148 | the files a pass leaves are those of `extract_post` run once on each URL it dispatched, in order |
| SearchCrawl.CrawlConsistent | main.py:134-158 | the crawl keeps `seen` equal to the dispatched URLs, each dispatched once |
| SearchCrawl.CrawlSound | main.py:134-158 | every dispatched URL comes from an eligible anchor of a round the crawl read |
| SearchCrawl.CrawlComplete | main.py:153-155 | when the crawl stops, every eligible link of every round it read is in `seen` |
| SearchCrawl.CrawlGrows | main.py:134-158 | the crawl only adds to `seen` and to the dispatched URLs |
| SearchCrawl.CrawlGrowth | main.py:153-157 | once `last_count` is the size of `seen`, every round the crawl went on past added a new link, and it stops on a round that added none |
| SearchCrawl.SubsetSize | main.py:153 | helper for `SearchCrawl.CrawlGrowth` and `SearchCrawl.CrawlStops`: a subset is no larger than its superset, so the growing `seen` never shrinks `len(seen)` in the stop test |
| SearchCrawl.CrawlStops | main.py:131-157 | from an empty `seen` and `last_count = -1`, the crawl reads at least two rounds before stopping, stops after the first round that added nothing, and found a new link in each round in between |
| SearchCrawl.CrawlFiles | main.py:134-158 | the files the crawl leaves are those of `extract_post` run once on each dispatched URL, in order |
| SearchCrawl.RunFacts | main.py:110-158 | nothing is crawled without a session cookie; otherwise the dispatched URLs are exactly `seen`, each once, each from an eligible anchor, in discovery order (earlier round first, then earlier anchor), the files are their extractions in order, and only a raising request aborts |
| SearchCrawl.FirstRoundFinds | main.py:134-143 | `FirstRound` is a round that shows the link, and no earlier round from the start shows it |
| SearchCrawl.CrawlOrder | main.py:134-158 | the crawl dispatches in discovery order: each URL in the first round that shows it, the URLs of one round in the order of their first anchors, and never a URL already in `seen` |
| SearchCrawl.CrawlNeverBadUrl | main.py:143-148 | an aborted crawl was stopped by a raising request, never by the URL split |

## Left out

- Unicode NFKD normalisation in `slugify` is not modelled. The ASCII step drops every character at or above 128, which matches the source for text that is already NFKD-normal.
- `str.lower` is modelled on ASCII letters only.
- `Text.Lower`: the result agrees with Python only for ASCII text, because non-ASCII case mapping is left out.
- The page parsing of `test.py`'s `extract_post` and `extract_replies` (BeautifulSoup over the rendered HTML) is not modelled. Each feed link carries what opening its page gives: a record, nothing, or a failure (`FeedScraper.PageResult.GotoFailed`).
- The exceptions raised inside `test.py`'s `extract_post` are not told apart. Examples are the `AttributeError` when the page has no title element (test.py:61-63) and the `KeyError` of `root["id"]` (test.py:70). Each is modelled by `GotoFailed`, which ends `scrape_subreddit` with the same uncaught `NavigationFailed` exception.
- `urljoin` is not modelled; only the `href` text takes part in the filters.
- `datetime.now` for `scraped_at` is not modelled; the record keeps it as text.
- The browser is replaced by its answers: launching it, login, `goto`, `wait_for_load_state`, scrolling, timeouts and the random pauses. The number of scrolls only changes what `links.count()` returns, and that is the `counts` parameter.
- Both crawlers loop for as long as the page keeps answering. The model reads a finite sequence of passes and reports `OutOfRounds` when it runs out.
- In `requests.get`, the URL, the attempt number and the `Cookie` header are modelled. The other headers and the timeout are left out.
- Each HTTP answer is given as a status and either a parsed document or no parse. JSON decoding and the body text are not modelled.
- JSON numbers are text (`Json.Value.Float`) or integers. Floating point is not modelled.
- The `KeyError`s and `IndexError`s of `data[0]["data"]["children"][0]["data"]` (main.py:41), `post["id"]` (main.py:48), `c["data"]` (main.py:60), `d["id"]` (main.py:62), `d["replies"]["data"]["children"]` (main.py:68) and `data[1]["data"]["children"]` (main.py:69) are not modelled. A raise at main.py:60-69 would leave `post.csv` already appended (main.py:42-52) and `comment.csv` untouched; the model cannot reach that state. The model assumes the API answer has that shape.
- Python's `==` across different JSON types is modelled as equality of `Json.Value`, which makes `1 == True` and `0 == 0.0` false.
- The CSV encoding of cells, quoting and newlines are left out. A file is the sequence of its rows.
- For no records the model's table is empty (`OutputWriter.Table`). The exact bytes pandas writes for an empty frame are not modelled.
- `mkdir`, path normalisation and the JSON text of each document are not modelled. A document is the record stored at its path.
- Writing the cookies to `cookies.json` and reading them back is treated as the identity.
- Every `print` and the final `browser.close()` are left out.
- The rest of the web front end (widgets, showing the CSV, the zip download) is not modelled.
- `KeywordInput.IsSpace` is exactly the set of characters Python's `str.isspace` accepts, which `strip()` removes. It is written out by hand rather than read from Python's Unicode tables, so a future change to those tables is not followed.

## Findings

| source | as written | input that shows it | evidently intended | confidence | as-written member | corrected member |
|---|---|---|---|---|---|---|
| test.py:155 | `n_links = min(links.count(), max_posts - scraped_posts)` counts every link on the page, while the cursor `links.nth(scraped_posts)` starts after the ones already visited | a two-link feed the page shows as 1 link, then 2 links: the second pass walks two links from cursor 1 and asks for link 2 of 2, so `get_attribute` waits on a missing element and raises | count only the links beyond the cursor, `min(links.count() - scraped_posts, max_posts - scraped_posts)` | not executed | FeedScraper.AllLinksReadsPastEnd | FeedScraper.UnvisitedNeverReadsPastEnd |
