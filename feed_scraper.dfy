/**
 * The crawl loop `scrape_subreddit` (test.py): walk the feed's post links with a
 * cursor, open the candidates that pass an early keyword filter, keep the posts
 * whose title and body match, and stop at `min_posts` matches or `max_posts` links.
 *
 * The browser is replaced by its answers. `feed` lists the feed's link elements in
 * document order (scrolling only appends to it) and `counts[r]` is what
 * `links.count()` returns in the r-th pass of the outer loop, after that pass's
 * scrolling. Each link carries what reading it and opening it would give.
 */
module FeedScraper {
  import opened Options
  import opened Keywords
  import opened Records

  /** What opening a candidate's page and running `extract_post` on it gives. */
  datatype PageResult =
    | Absent          // no `shreddit-post` root: `extract_post` returned None
    | Found(post: Post)
    | GotoFailed      // `post_tab.goto` or `extract_post` raised (timeout, network error, missing title or id)

  /**
   * One `a[slot="full-post-link"]` element: its `href` attribute (None when
   * missing), the text of its screen-reader child (None when there is no such
   * child, which makes `inner_text` raise), and what its post page gives.
   */
  datatype Link = Link(href: Option<string>, screenText: Option<string>, page: PageResult)

  /**
   * How many links one pass of the outer loop walks. `AllLinks` is the source's
   * `min(links.count(), max_posts - scraped_posts)`; `UnvisitedLinks` counts only
   * the links beyond the cursor.
   */
  datatype BatchPolicy = AllLinks | UnvisitedLinks

  /** The loop's variables: the two counters, the records, and the indices of the links whose post tab was opened. */
  datatype ScanState = ScanState(scraped: nat, matched: nat, records: seq<Post>, tabs: seq<nat>)

  /** The exceptions that escape the loop, each at the link index where it is raised. */
  datatype Failure =
    | MissingLink(index: nat)        // `links.nth(index)` does not exist: `get_attribute` times out
    | MissingScreenText(index: nat)  // no screen-reader child: `inner_text` times out
    | NavigationFailed(index: nat)   // `post_tab.goto` raised

  /** One visit, or a run of visits: the state reached, or the state at which an exception escaped. */
  datatype Step = Next(state: ScanState) | Fail(state: ScanState, failure: Failure)

  /**
   * How the function ends. `Finished` returns the records. `Crashed` is an escaping
   * exception: the caller gets no records. `OutOfRounds` means the counts given
   * ran out while the source would still be scrolling.
   */
  datatype Outcome =
    | Finished(state: ScanState)
    | Crashed(state: ScanState, failure: Failure)
    | OutOfRounds(state: ScanState)

  const Initial := ScanState(0, 0, [], [])

  /** Every count names links that the feed lists. */
  predicate FeedCovers(feed: seq<Link>, counts: seq<nat>) {
    forall r :: 0 <= r < |counts| ==> counts[r] <= |feed|
  }

  /** `get_attribute("href") or ""`. */
  function HrefText(link: Link): string {
    link.href.GetOr("")
  }

  /** The early filter: the link is opened unless neither its href nor its screen-reader text matches. */
  predicate PassesEarly(link: Link, keywords: seq<string>) {
    ContainsKeywords(HrefText(link), keywords) || ContainsKeywords(link.screenText.GetOr(""), keywords)
  }

  /** The admission check on `title + " " + body`. */
  predicate Admits(post: Post, keywords: seq<string>) {
    ContainsKeywords(post.title + " " + post.body, keywords)
  }

  /** One pass of the inner loop's body, on the link under the cursor. */
  function Visit(st: ScanState, link: Link, keywords: seq<string>): (r: Step)
    ensures r.Next? ==> r.state.scraped == st.scraped + 1
    ensures r.Next? ==> st.records <= r.state.records && |r.state.records| <= |st.records| + 1
    ensures r.Fail? ==> r.state == st && r.failure.index == st.scraped
  {
    var k := st.scraped;
    if link.screenText.None? then Fail(st, MissingScreenText(k))
    else if !PassesEarly(link, keywords) then Next(st.(scraped := k + 1))
    else
      match link.page
      case GotoFailed => Fail(st, NavigationFailed(k))
      case Absent => Next(st.(scraped := k + 1, tabs := st.tabs + [k]))
      case Found(p) =>
        if Admits(p, keywords) then Next(ScanState(k + 1, st.matched + 1, st.records + [p], st.tabs + [k]))
        else Next(st.(scraped := k + 1, tabs := st.tabs + [k]))
  }

  /** The inner `for` loop: `n` more iterations, each reading link `scraped_posts` of the `count` present. */
  function Walk(feed: seq<Link>, count: nat, keywords: seq<string>, minPosts: int, n: nat, st: ScanState): Step
    requires count <= |feed|
    decreases n
  {
    if n == 0 || st.matched >= minPosts then Next(st)
    else if st.scraped >= count then Fail(st, MissingLink(st.scraped))
    else
      match Visit(st, feed[st.scraped], keywords)
      case Fail(s, f) => Fail(s, f)
      case Next(s) => Walk(feed, count, keywords, minPosts, n - 1, s)
  }

  /** `n_links` for one pass (the cursor is below `max_posts` there). */
  function BatchSize(policy: BatchPolicy, count: nat, scraped: nat, maxPosts: int): (n: nat)
    requires scraped < maxPosts
    ensures n <= maxPosts - scraped
    ensures policy.UnvisitedLinks? && n > 0 ==> scraped + n <= count
  {
    var room := maxPosts - scraped;
    match policy
    case AllLinks => if count < room then count else room
    case UnvisitedLinks =>
      var unseen := if scraped < count then count - scraped else 0;
      if unseen < room then unseen else room
  }

  /** The outer `while` loop from pass `r` on. */
  function Rounds(feed: seq<Link>, counts: seq<nat>, keywords: seq<string>, maxPosts: int, minPosts: int,
                  policy: BatchPolicy, r: nat, st: ScanState): Outcome
    requires FeedCovers(feed, counts)
    decreases |counts| - r
  {
    if !(st.matched < minPosts && st.scraped < maxPosts) then Finished(st)
    else if r >= |counts| then OutOfRounds(st)
    else
      var n := BatchSize(policy, counts[r], st.scraped, maxPosts);
      match Walk(feed, counts[r], keywords, minPosts, n, st)
      case Fail(s, f) => Crashed(s, f)
      case Next(s) => if s.scraped >= maxPosts then Finished(s) else Rounds(feed, counts, keywords, maxPosts, minPosts, policy, r + 1, s)
  }

  /** The whole crawl, from zero counters. */
  function Run(feed: seq<Link>, counts: seq<nat>, keywords: seq<string>, maxPosts: int, minPosts: int,
               policy: BatchPolicy): Outcome
    requires FeedCovers(feed, counts)
  {
    Rounds(feed, counts, keywords, maxPosts, minPosts, policy, 0, Initial)
  }

  /** `scrape_subreddit`: the counter-driven loop itself. */
  method ScrapeSubreddit(feed: seq<Link>, counts: seq<nat>, keywords: seq<string>, maxPosts: int, minPosts: int,
                         policy: BatchPolicy) returns (outcome: Outcome)
    requires FeedCovers(feed, counts)
    ensures outcome == Run(feed, counts, keywords, maxPosts, minPosts, policy)
  {
    var st := Initial;
    var round: nat := 0;
    while st.matched < minPosts && st.scraped < maxPosts
      invariant round <= |counts|
      invariant Rounds(feed, counts, keywords, maxPosts, minPosts, policy, round, st)
                == Run(feed, counts, keywords, maxPosts, minPosts, policy)
      decreases |counts| - round
    {
      if round == |counts| {
        return OutOfRounds(st);
      }
      var count := counts[round];
      var nLinks := BatchSize(policy, count, st.scraped, maxPosts);
      var step := WalkLinks(feed, count, keywords, minPosts, nLinks, st);
      if step.Fail? {
        return Crashed(step.state, step.failure);
      }
      st := step.state;
      if st.scraped >= maxPosts {
        break;
      }
      round := round + 1;
    }
    outcome := Finished(st);
  }

  /** The inner `for i in range(n_links)` loop of one pass, from state `st`. */
  method WalkLinks(feed: seq<Link>, count: nat, keywords: seq<string>, minPosts: int, nLinks: nat, st: ScanState)
    returns (step: Step)
    requires count <= |feed|
    ensures step == Walk(feed, count, keywords, minPosts, nLinks, st)
  {
    var scrapedPosts: nat, matchedPosts: nat, records: seq<Post>, tabs: seq<nat> := st.scraped, st.matched, st.records, st.tabs;
    var i: nat := 0;
    while i < nLinks
      invariant i <= nLinks
      invariant Walk(feed, count, keywords, minPosts, nLinks - i, ScanState(scrapedPosts, matchedPosts, records, tabs))
                == Walk(feed, count, keywords, minPosts, nLinks, st)
      decreases nLinks - i
    {
      if matchedPosts >= minPosts {
        break;
      }
      var before := ScanState(scrapedPosts, matchedPosts, records, tabs);
      if scrapedPosts >= count {
        return Fail(before, MissingLink(scrapedPosts));
      }
      var link := feed[scrapedPosts];
      if link.screenText.None? {
        return Fail(before, MissingScreenText(scrapedPosts));
      }
      if !ContainsKeywords(link.href.GetOr(""), keywords) && !ContainsKeywords(link.screenText.value, keywords) {
        scrapedPosts := scrapedPosts + 1;
        i := i + 1;
        assert Visit(before, link, keywords) == Next(ScanState(scrapedPosts, matchedPosts, records, tabs));
        continue;
      }
      match link.page {
        case GotoFailed =>
          return Fail(before, NavigationFailed(scrapedPosts));
        case Absent =>
          tabs := tabs + [scrapedPosts];
        case Found(post) =>
          tabs := tabs + [scrapedPosts];
          if ContainsKeywords(post.title + " " + post.body, keywords) {
            records := records + [post];
            matchedPosts := matchedPosts + 1;
          }
      }
      scrapedPosts := scrapedPosts + 1;
      i := i + 1;
      assert Visit(before, link, keywords) == Next(ScanState(scrapedPosts, matchedPosts, records, tabs));
    }
    step := Next(ScanState(scrapedPosts, matchedPosts, records, tabs));
  }

  // ---------------------------------------------------------------------------
  // What a scan of the first links of the feed has produced, as functions of
  // that prefix alone.

  /** The record a scanned link contributes: its post, when the link passed the early filter and the post matches. */
  function AdmittedAt(link: Link, keywords: seq<string>): seq<Post> {
    if PassesEarly(link, keywords) && link.page.Found? && Admits(link.page.post, keywords) then [link.page.post] else []
  }

  /** The records of a scanned prefix, in link order. */
  function Admitted(links: seq<Link>, keywords: seq<string>): seq<Post> {
    if links == [] then [] else Admitted(links[..|links| - 1], keywords) + AdmittedAt(links[|links| - 1], keywords)
  }

  /** The indices of the links of a scanned prefix whose post tab was opened, in order. */
  function Tabs(links: seq<Link>, keywords: seq<string>): seq<nat> {
    if links == [] then []
    else Tabs(links[..|links| - 1], keywords) + (if PassesEarly(links[|links| - 1], keywords) then [|links| - 1] else [])
  }

  /** The loop's variables agree with the scan of the links before the cursor. */
  ghost predicate Consistent(feed: seq<Link>, keywords: seq<string>, st: ScanState) {
    && st.scraped <= |feed|
    && st.records == Admitted(feed[..st.scraped], keywords)
    && st.tabs == Tabs(feed[..st.scraped], keywords)
    && st.matched == |st.records|
  }

  /** The counters stay within `max_posts` and `min_posts`. */
  ghost predicate Bounded(st: ScanState, maxPosts: int, minPosts: int) {
    && (0 <= maxPosts ==> st.scraped <= maxPosts)
    && (0 <= minPosts ==> st.matched <= minPosts)
  }

  lemma VisitConsistent(feed: seq<Link>, keywords: seq<string>, st: ScanState)
    requires Consistent(feed, keywords, st) && st.scraped < |feed|
    ensures Visit(st, feed[st.scraped], keywords).Next? ==> Consistent(feed, keywords, Visit(st, feed[st.scraped], keywords).state)
  {
    var k := st.scraped;
    assert feed[..k + 1][..k] == feed[..k];
  }

  lemma {:induction false} WalkConsistent(feed: seq<Link>, count: nat, keywords: seq<string>, minPosts: int, n: nat, st: ScanState)
    requires count <= |feed| && Consistent(feed, keywords, st)
    requires 0 <= minPosts ==> st.matched <= minPosts
    ensures var w := Walk(feed, count, keywords, minPosts, n, st);
      && Consistent(feed, keywords, w.state)
      && st.scraped <= w.state.scraped <= st.scraped + n
      && (0 <= minPosts ==> w.state.matched <= minPosts)
    decreases n
  {
    if n == 0 || st.matched >= minPosts || st.scraped >= count {
    } else {
      VisitConsistent(feed, keywords, st);
      var v := Visit(st, feed[st.scraped], keywords);
      if v.Next? {
        assert v.state.matched <= st.matched + 1;
        WalkConsistent(feed, count, keywords, minPosts, n - 1, v.state);
        assert Walk(feed, count, keywords, minPosts, n, st) == Walk(feed, count, keywords, minPosts, n - 1, v.state);
      } else {
        assert Walk(feed, count, keywords, minPosts, n, st) == v;
      }
    }
  }

  /** An exception escapes at the cursor, before the goal is met, within the pass's batch. */
  lemma {:induction false} WalkFailure(feed: seq<Link>, count: nat, keywords: seq<string>, minPosts: int, n: nat, st: ScanState)
    requires count <= |feed|
    ensures var w := Walk(feed, count, keywords, minPosts, n, st);
      && st.scraped <= w.state.scraped
      && (w.Fail? ==> w.failure.index == w.state.scraped < st.scraped + n && w.state.matched < minPosts)
      && (w.Fail? && w.failure.MissingLink? ==> w.state.scraped >= count)
    decreases n
  {
    if n == 0 || st.matched >= minPosts || st.scraped >= count {
    } else {
      var v := Visit(st, feed[st.scraped], keywords);
      if v.Next? {
        WalkFailure(feed, count, keywords, minPosts, n - 1, v.state);
      }
    }
  }

  lemma {:induction false} RoundsConsistent(feed: seq<Link>, counts: seq<nat>, keywords: seq<string>, maxPosts: int,
                                            minPosts: int, policy: BatchPolicy, r: nat, st: ScanState)
    requires FeedCovers(feed, counts)
    requires Consistent(feed, keywords, st) && Bounded(st, maxPosts, minPosts)
    ensures var o := Rounds(feed, counts, keywords, maxPosts, minPosts, policy, r, st);
      && Consistent(feed, keywords, o.state) && Bounded(o.state, maxPosts, minPosts)
      && (o.Finished? <==> o.state.matched >= minPosts || o.state.scraped >= maxPosts)
      && (o.Crashed? ==> o.failure.index == o.state.scraped)
    decreases |counts| - r
  {
    if !(st.matched < minPosts && st.scraped < maxPosts) || r >= |counts| {
    } else {
      var n := BatchSize(policy, counts[r], st.scraped, maxPosts);
      WalkConsistent(feed, counts[r], keywords, minPosts, n, st);
      WalkFailure(feed, counts[r], keywords, minPosts, n, st);
      var w := Walk(feed, counts[r], keywords, minPosts, n, st);
      if w.Next? && w.state.scraped < maxPosts {
        RoundsConsistent(feed, counts, keywords, maxPosts, minPosts, policy, r + 1, w.state);
      }
    }
  }

  /**
   * What the crawl returns, however it ends: the records are exactly the admitted
   * posts among the links before the cursor, in link order, one per match; the tabs
   * are exactly the early-filter survivors among them; the cursor never passes
   * `max_posts` and the matches never pass `min_posts`; and it finishes exactly
   * when the goal or the cap is reached.
   */
  lemma RunResult(feed: seq<Link>, counts: seq<nat>, keywords: seq<string>, maxPosts: int, minPosts: int, policy: BatchPolicy)
    requires FeedCovers(feed, counts)
    ensures var o := Run(feed, counts, keywords, maxPosts, minPosts, policy);
      && o.state.scraped <= |feed|
      && o.state.records == Admitted(feed[..o.state.scraped], keywords)
      && o.state.tabs == Tabs(feed[..o.state.scraped], keywords)
      && o.state.matched == |o.state.records| <= o.state.scraped
      && (0 <= maxPosts ==> o.state.scraped <= maxPosts)
      && (0 <= minPosts ==> o.state.matched <= minPosts)
      && (o.Finished? <==> o.state.matched >= minPosts || o.state.scraped >= maxPosts)
      && (o.Crashed? ==> o.failure.index == o.state.scraped)
  {
    assert feed[..0] == [];
    RoundsConsistent(feed, counts, keywords, maxPosts, minPosts, policy, 0, Initial);
    var o := Run(feed, counts, keywords, maxPosts, minPosts, policy);
    AdmittedLength(feed[..o.state.scraped], keywords);
  }

  lemma {:induction false} AdmittedLength(links: seq<Link>, keywords: seq<string>)
    ensures |Admitted(links, keywords)| <= |links|
  {
    if links != [] {
      AdmittedLength(links[..|links| - 1], keywords);
    }
  }

  /** Every record passed the admission check on `title + " " + body`. */
  lemma {:induction false} AdmittedMatch(links: seq<Link>, keywords: seq<string>)
    ensures forall p :: p in Admitted(links, keywords) ==> Admits(p, keywords)
  {
    if links != [] {
      AdmittedMatch(links[..|links| - 1], keywords);
    }
  }

  /** Every record is the post of a link whose tab was opened. */
  lemma {:induction false} AdmittedFromTabs(links: seq<Link>, keywords: seq<string>)
    ensures forall p :: p in Admitted(links, keywords) ==>
      exists k :: k in Tabs(links, keywords) && k < |links| && links[k].page == Found(p)
  {
    if links != [] {
      var init := links[..|links| - 1];
      AdmittedFromTabs(init, keywords);
      forall p | p in Admitted(links, keywords)
        ensures exists k :: k in Tabs(links, keywords) && k < |links| && links[k].page == Found(p)
      {
        if p in Admitted(init, keywords) {
          var k :| k in Tabs(init, keywords) && k < |init| && init[k].page == Found(p);
          assert links[k] == init[k];
        } else {
          assert p in AdmittedAt(links[|links| - 1], keywords);
          assert |links| - 1 in Tabs(links, keywords);
        }
      }
    }
  }

  /** A tab is opened for exactly the links that pass the early filter: early-skipped links are never opened. */
  lemma {:induction false} TabsExactly(links: seq<Link>, keywords: seq<string>)
    ensures forall k :: k in Tabs(links, keywords) <==> 0 <= k < |links| && PassesEarly(links[k], keywords)
  {
    if links != [] {
      var init := links[..|links| - 1];
      TabsExactly(init, keywords);
      forall k | 0 <= k < |init|
        ensures links[k] == init[k]
      {
      }
    }
  }

  /** Tabs are opened in strictly increasing link order, so no link is opened twice. */
  lemma {:induction false} TabsIncreasing(links: seq<Link>, keywords: seq<string>)
    ensures forall i, j :: 0 <= i < j < |Tabs(links, keywords)| ==> Tabs(links, keywords)[i] < Tabs(links, keywords)[j]
  {
    if links != [] {
      var init := links[..|links| - 1];
      TabsIncreasing(init, keywords);
      TabsExactly(init, keywords);
      var t := Tabs(init, keywords);
      assert forall i :: 0 <= i < |t| ==> t[i] in t;
    }
  }

  /** Scanning further only appends: the records of a shorter prefix lead those of a longer one. */
  lemma {:induction false} AdmittedGrows(links: seq<Link>, j: nat, keywords: seq<string>)
    requires j <= |links|
    ensures Admitted(links[..j], keywords) <= Admitted(links, keywords)
    decreases |links|
  {
    if j < |links| {
      var init := links[..|links| - 1];
      assert links[..j] == init[..j];
      AdmittedGrows(init, j, keywords);
    } else {
      assert links[..j] == links;
    }
  }

  /** With no keywords nothing passes either filter: no tab is opened and no record kept. */
  lemma {:induction false} NoKeywordsNoRecords(links: seq<Link>)
    ensures Admitted(links, []) == [] && Tabs(links, []) == []
  {
    if links != [] {
      NoKeywordsNoRecords(links[..|links| - 1]);
    }
  }

  // ---------------------------------------------------------------------------
  // How many links a pass walks.

  /** Walking only unvisited links never reads past the last link present. */
  lemma {:induction false} WalkWithinCount(feed: seq<Link>, count: nat, keywords: seq<string>, minPosts: int, n: nat, st: ScanState)
    requires count <= |feed|
    requires n > 0 ==> st.scraped + n <= count
    ensures var w := Walk(feed, count, keywords, minPosts, n, st); w.Fail? ==> !w.failure.MissingLink?
    decreases n
  {
    if n == 0 || st.matched >= minPosts || st.scraped >= count {
    } else {
      var v := Visit(st, feed[st.scraped], keywords);
      if v.Next? {
        WalkWithinCount(feed, count, keywords, minPosts, n - 1, v.state);
      }
    }
  }

  /** With `UnvisitedLinks` the crawl never raises for a missing link. */
  lemma {:induction false} UnvisitedNeverReadsPastEnd(feed: seq<Link>, counts: seq<nat>, keywords: seq<string>, maxPosts: int,
                                                      minPosts: int, r: nat, st: ScanState)
    requires FeedCovers(feed, counts)
    ensures var o := Rounds(feed, counts, keywords, maxPosts, minPosts, UnvisitedLinks, r, st);
      o.Crashed? ==> !o.failure.MissingLink?
    decreases |counts| - r
  {
    if !(st.matched < minPosts && st.scraped < maxPosts) || r >= |counts| {
    } else {
      var n := BatchSize(UnvisitedLinks, counts[r], st.scraped, maxPosts);
      WalkWithinCount(feed, counts[r], keywords, minPosts, n, st);
      var w := Walk(feed, counts[r], keywords, minPosts, n, st);
      if w.Next? && w.state.scraped < maxPosts {
        UnvisitedNeverReadsPastEnd(feed, counts, keywords, maxPosts, minPosts, r + 1, w.state);
      }
    }
  }

  /** A link that survives no filter and opens nothing. */
  const Plain := Link(Some("b"), Some("b"), Absent)

  /**
   * The source's batch size reads past the end as soon as the cursor is not at 0:
   * one link in the first pass, two in the second, and the second pass asks for
   * link 2 of 2.
   */
  lemma AllLinksReadsPastEnd()
    ensures Run([Plain, Plain], [1, 2], ["a"], 10, 1, AllLinks) == Crashed(ScanState(2, 0, [], []), MissingLink(2))
  {
    var st1 := ScanState(1, 0, [], []);
    var st2 := ScanState(2, 0, [], []);
    assert !PassesEarly(Plain, ["a"]);
    assert Visit(Initial, Plain, ["a"]) == Next(st1);
    assert Visit(st1, Plain, ["a"]) == Next(st2);
    assert Walk([Plain, Plain], 1, ["a"], 1, 1, Initial) == Next(st1);
    assert Walk([Plain, Plain], 2, ["a"], 1, 0, st2) == Next(st2);
    assert Walk([Plain, Plain], 2, ["a"], 1, 1, st2) == Fail(st2, MissingLink(2));
    assert Walk([Plain, Plain], 2, ["a"], 1, 2, st1) == Fail(st2, MissingLink(2));
  }

  /** The same feed with `UnvisitedLinks`: the second pass walks the one new link and the counts run out. */
  lemma UnvisitedStaysInRange()
    ensures Run([Plain, Plain], [1, 2], ["a"], 10, 1, UnvisitedLinks) == OutOfRounds(ScanState(2, 0, [], []))
  {
    var st1 := ScanState(1, 0, [], []);
    var st2 := ScanState(2, 0, [], []);
    assert !PassesEarly(Plain, ["a"]);
    assert Visit(Initial, Plain, ["a"]) == Next(st1);
    assert Visit(st1, Plain, ["a"]) == Next(st2);
    assert Walk([Plain, Plain], 1, ["a"], 1, 1, Initial) == Next(st1);
    assert Walk([Plain, Plain], 2, ["a"], 1, 1, st1) == Next(st2);
  }

  /**
   * There is no exhaustion exit: while the page shows no links, every pass walks
   * nothing and the loop goes on, whichever batch size is used.
   */
  lemma {:induction false} EmptyFeedNeverFinishes(feed: seq<Link>, counts: seq<nat>, keywords: seq<string>, maxPosts: int,
                                                  minPosts: int, policy: BatchPolicy, r: nat)
    requires FeedCovers(feed, counts)
    requires 0 < minPosts && 0 < maxPosts
    requires forall q :: 0 <= q < |counts| ==> counts[q] == 0
    ensures Rounds(feed, counts, keywords, maxPosts, minPosts, policy, r, Initial) == OutOfRounds(Initial)
    decreases |counts| - r
  {
    if r < |counts| {
      assert Walk(feed, counts[r], keywords, minPosts, BatchSize(policy, counts[r], 0, maxPosts), Initial) == Next(Initial);
      EmptyFeedNeverFinishes(feed, counts, keywords, maxPosts, minPosts, policy, r + 1);
    }
  }
}
