/**
 * The crawl loop of `main` (main.py): after each scroll, read the `href` of every
 * post-title anchor on the search page, extract each new post link once, and stop
 * after the first round, from the second on, in which no new link was seen (the
 * first round cannot stop the loop, since `last_count` starts at -1).
 *
 * The browser is replaced by its answers: `rounds[r]` lists the anchors' `href`
 * attributes (None when absent) as read in the r-th pass, after that pass's
 * scrolling. The API is replaced by `answer`, as in `extract_post`. Login,
 * saving and reloading the cookies, scrolling and the random pauses are left out.
 */
module SearchCrawl {
  import opened Options
  import opened Text
  import opened PostUrl
  import opened Fetch
  import opened ExtractPost
  import opened SessionCookie

  /** What a post link's `href` must contain. */
  const Marker: string := "/comments/"

  /** `href and "/comments/" in href`. */
  predicate Eligible(href: Option<string>) {
    href.Some? && href.value != [] && Contains(href.value, Marker)
  }

  /** The URL handed to `extract_post`. */
  function UrlOf(href: string): string {
    Origin + href
  }

  /**
   * The loop's variables: `seen`, `last_count`, the URLs handed to `extract_post`
   * in order, and the two CSV files.
   */
  datatype CrawlState = CrawlState(seen: set<string>, lastCount: int, dispatched: seq<string>, files: Files)

  function Start(files: Files): CrawlState {
    CrawlState({}, -1, [], files)
  }

  /** An `extract_post` outcome that is an exception escaping the crawl. */
  predicate Fatal(e: Extraction) {
    e.BadUrl? || e.RequestRaised?
  }

  /** One pass over the anchors: all of them read, or an exception from `extract_post` on `url`. */
  datatype ScanResult =
    | Scanned(state: CrawlState)
    | Halted(state: CrawlState, url: string, failure: Extraction)

  /** How the crawl ends. */
  datatype Outcome =
    | Stopped(state: CrawlState, rounds: nat)          // a round saw nothing new: `break`
    | Aborted(state: CrawlState, url: string, failure: Extraction)
    | OutOfRounds(state: CrawlState)                   // the rounds given ran out; the source would scroll on

  /** How `main` ends after login: `RuntimeError` for want of a `reddit_session` cookie, or the crawl's end. */
  datatype MainResult = NoSession | Crawled(outcome: Outcome)

  /** The `for a in anchors` loop from the first of `anchors` on. */
  function Scan(anchors: seq<Option<string>>, st: CrawlState, answer: Request -> Response<Thread>, cookie: string): ScanResult
    decreases |anchors|
  {
    if anchors == [] then Scanned(st)
    else if !Eligible(anchors[0]) || UrlOf(anchors[0].value) in st.seen then Scan(anchors[1..], st, answer, cookie)
    else
      var url := UrlOf(anchors[0].value);
      var e := Extract(url, answer, cookie, st.files);
      var st' := st.(seen := st.seen + {url}, dispatched := st.dispatched + [url], files := e.files);
      if Fatal(e.outcome) then Halted(st', url, e.outcome) else Scan(anchors[1..], st', answer, cookie)
  }

  /** The `while True` loop from round `r` on. */
  function Crawl(rounds: seq<seq<Option<string>>>, r: nat, st: CrawlState,
                 answer: Request -> Response<Thread>, cookie: string): Outcome
    decreases |rounds| - r
  {
    if r >= |rounds| then OutOfRounds(st)
    else
      match Scan(rounds[r], st, answer, cookie)
      case Halted(s, url, e) => Aborted(s, url, e)
      case Scanned(s) =>
        if |s.seen| == s.lastCount then Stopped(s, r + 1)
        else Crawl(rounds, r + 1, s.(lastCount := |s.seen|), answer, cookie)
  }

  /** `main` after login: the cookie lookup, then the crawl. */
  function Run(cookies: seq<Cookie>, rounds: seq<seq<Option<string>>>,
               answer: Request -> Response<Thread>, files: Files): MainResult
  {
    match SessionHeader(cookies)
    case None => NoSession
    case Some(cookie) => Crawled(Crawl(rounds, 0, Start(files), answer, cookie))
  }

  /** One pass of the inner loop, updating `seen` and calling `extract_post` on each new link. */
  method ScanAnchors(anchors: seq<Option<string>>, st: CrawlState,
                     answer: Request -> Response<Thread>, cookie: string)
    returns (result: ScanResult)
    ensures result == Scan(anchors, st, answer, cookie)
  {
    var seen := st.seen;
    var dispatched := st.dispatched;
    var files := st.files;
    var i := 0;
    while i < |anchors|
      invariant i <= |anchors|
      invariant Scan(anchors[i..], CrawlState(seen, st.lastCount, dispatched, files), answer, cookie)
             == Scan(anchors, st, answer, cookie)
    {
      assert anchors[i..][1..] == anchors[i + 1..];
      var href := anchors[i];
      if Eligible(href) {
        var url := UrlOf(href.value);
        if url !in seen {
          seen := seen + {url};
          dispatched := dispatched + [url];
          var outcome;
          outcome, files := ExtractPost.ExtractPost(url, answer, cookie, files);
          if Fatal(outcome) {
            return Halted(CrawlState(seen, st.lastCount, dispatched, files), url, outcome);
          }
        }
      }
      i := i + 1;
    }
    return Scanned(CrawlState(seen, st.lastCount, dispatched, files));
  }

  /** `main` from the cookie lookup on: the outer loop with its stop test on `last_count`. */
  method CrawlSearch(cookies: seq<Cookie>, rounds: seq<seq<Option<string>>>,
                     answer: Request -> Response<Thread>, files: Files)
    returns (result: MainResult)
    ensures result == Run(cookies, rounds, answer, files)
  {
    var header := FindSessionCookie(cookies);
    if header.None? {
      return NoSession;
    }
    var cookie := header.value;
    var st := Start(files);
    var r := 0;
    while r < |rounds|
      invariant r <= |rounds|
      invariant Crawled(Crawl(rounds, r, st, answer, cookie)) == Run(cookies, rounds, answer, files)
    {
      var scan := ScanAnchors(rounds[r], st, answer, cookie);
      if scan.Halted? {
        return Crawled(Aborted(scan.state, scan.url, scan.failure));
      }
      st := scan.state;
      if |st.seen| == st.lastCount {
        return Crawled(Stopped(st, r + 1));
      }
      st := st.(lastCount := |st.seen|);
      r := r + 1;
    }
    return Crawled(OutOfRounds(st));
  }

  // ---------------------------------------------------------------------------
  // What one pass does.

  ghost predicate Distinct(s: seq<string>) {
    forall i, j :: 0 <= i < j < |s| ==> s[i] != s[j]
  }

  /** `seen` holds exactly the URLs handed to `extract_post`, and each was handed over once. */
  ghost predicate Consistent(st: CrawlState) {
    (forall u :: u in st.seen <==> u in st.dispatched) && Distinct(st.dispatched)
  }

  /** The URL of an eligible anchor among `anchors`. */
  ghost predicate LinkIn(anchors: seq<Option<string>>, url: string) {
    exists j :: 0 <= j < |anchors| && Eligible(anchors[j]) && url == UrlOf(anchors[j].value)
  }

  /** A pass only adds: `seen` and the dispatched URLs grow, and `last_count` is left alone. */
  lemma {:induction false} ScanGrows(anchors: seq<Option<string>>, st: CrawlState,
                                     answer: Request -> Response<Thread>, cookie: string)
    ensures var s := Scan(anchors, st, answer, cookie).state;
      st.seen <= s.seen && st.dispatched <= s.dispatched && s.lastCount == st.lastCount
    decreases |anchors|
  {
    if anchors != [] {
      if !Eligible(anchors[0]) || UrlOf(anchors[0].value) in st.seen {
        ScanGrows(anchors[1..], st, answer, cookie);
      } else {
        var url := UrlOf(anchors[0].value);
        var e := Extract(url, answer, cookie, st.files);
        var st' := st.(seen := st.seen + {url}, dispatched := st.dispatched + [url], files := e.files);
        if !Fatal(e.outcome) {
          ScanGrows(anchors[1..], st', answer, cookie);
        }
      }
    }
  }

  /** A pass keeps `seen` equal to the dispatched URLs, and dispatches no URL twice. */
  lemma {:induction false} ScanConsistent(anchors: seq<Option<string>>, st: CrawlState,
                                          answer: Request -> Response<Thread>, cookie: string)
    requires Consistent(st)
    ensures Consistent(Scan(anchors, st, answer, cookie).state)
    decreases |anchors|
  {
    if anchors != [] {
      if !Eligible(anchors[0]) || UrlOf(anchors[0].value) in st.seen {
        ScanConsistent(anchors[1..], st, answer, cookie);
      } else {
        var url := UrlOf(anchors[0].value);
        var e := Extract(url, answer, cookie, st.files);
        var st' := st.(seen := st.seen + {url}, dispatched := st.dispatched + [url], files := e.files);
        assert url !in st.dispatched;
        assert Consistent(st');
        if !Fatal(e.outcome) {
          ScanConsistent(anchors[1..], st', answer, cookie);
        }
      }
    }
  }

  /** Every URL a pass dispatches is that of an eligible anchor of the pass. */
  lemma {:induction false} ScanSound(anchors: seq<Option<string>>, st: CrawlState,
                                     answer: Request -> Response<Thread>, cookie: string)
    ensures var s := Scan(anchors, st, answer, cookie).state;
      forall k :: |st.dispatched| <= k < |s.dispatched| ==> LinkIn(anchors, s.dispatched[k])
    decreases |anchors|
  {
    if anchors != [] {
      var rest := anchors[1..];
      forall u | LinkIn(rest, u) ensures LinkIn(anchors, u) {
        var j :| 0 <= j < |rest| && Eligible(rest[j]) && u == UrlOf(rest[j].value);
        assert rest[j] == anchors[j + 1];
      }
      if !Eligible(anchors[0]) || UrlOf(anchors[0].value) in st.seen {
        ScanSound(rest, st, answer, cookie);
        assert Scan(anchors, st, answer, cookie) == Scan(rest, st, answer, cookie);
      } else {
        var url := UrlOf(anchors[0].value);
        var e := Extract(url, answer, cookie, st.files);
        var st' := st.(seen := st.seen + {url}, dispatched := st.dispatched + [url], files := e.files);
        assert LinkIn(anchors, url);
        if !Fatal(e.outcome) {
          ScanSound(rest, st', answer, cookie);
          ScanGrows(rest, st', answer, cookie);
          var s := Scan(rest, st', answer, cookie).state;
          assert s.dispatched[|st.dispatched|] == st'.dispatched[|st.dispatched|] == url;
        }
      }
    }
  }

  /** A pass that reads every anchor leaves the URL of each eligible one in `seen`. */
  lemma {:induction false} ScanComplete(anchors: seq<Option<string>>, st: CrawlState,
                                        answer: Request -> Response<Thread>, cookie: string)
    requires Scan(anchors, st, answer, cookie).Scanned?
    ensures forall u :: LinkIn(anchors, u) ==> u in Scan(anchors, st, answer, cookie).state.seen
    decreases |anchors|
  {
    if anchors != [] {
      var rest := anchors[1..];
      var st' := st;
      if Eligible(anchors[0]) && UrlOf(anchors[0].value) !in st.seen {
        var url := UrlOf(anchors[0].value);
        var e := Extract(url, answer, cookie, st.files);
        st' := st.(seen := st.seen + {url}, dispatched := st.dispatched + [url], files := e.files);
      }
      assert Scan(anchors, st, answer, cookie) == Scan(rest, st', answer, cookie);
      ScanComplete(rest, st', answer, cookie);
      ScanGrows(rest, st', answer, cookie);
      forall u | LinkIn(anchors, u) ensures u in Scan(anchors, st, answer, cookie).state.seen {
        var j :| 0 <= j < |anchors| && Eligible(anchors[j]) && u == UrlOf(anchors[j].value);
        if j > 0 {
          assert rest[j - 1] == anchors[j];
          assert LinkIn(rest, u);
        }
      }
    }
  }

  /** `extract_post` never fails on its URL split: the only exception that halts a pass comes from `requests.get`. */
  lemma {:induction false} ScanNeverBadUrl(anchors: seq<Option<string>>, st: CrawlState,
                                           answer: Request -> Response<Thread>, cookie: string)
    ensures var res := Scan(anchors, st, answer, cookie); res.Halted? ==> res.failure.RequestRaised?
    decreases |anchors|
  {
    if anchors != [] {
      if !Eligible(anchors[0]) || UrlOf(anchors[0].value) in st.seen {
        ScanNeverBadUrl(anchors[1..], st, answer, cookie);
      } else {
        var url := UrlOf(anchors[0].value);
        CrawlUrlHasId(anchors[0].value);
        var e := Extract(url, answer, cookie, st.files);
        var st' := st.(seen := st.seen + {url}, dispatched := st.dispatched + [url], files := e.files);
        assert !e.outcome.BadUrl?;
        if !Fatal(e.outcome) {
          ScanNeverBadUrl(anchors[1..], st', answer, cookie);
        }
      }
    }
  }

  /** The position of the first eligible anchor whose URL is `url`, or `|anchors|` when there is none. */
  function FirstAt(anchors: seq<Option<string>>, url: string): nat
    decreases |anchors|
  {
    if anchors == [] then 0
    else if Eligible(anchors[0]) && UrlOf(anchors[0].value) == url then 0
    else 1 + FirstAt(anchors[1..], url)
  }

  /** `FirstAt` finds the first eligible anchor with that URL, and finds one exactly when there is one. */
  lemma {:induction false} FirstAtFinds(anchors: seq<Option<string>>, url: string)
    ensures FirstAt(anchors, url) <= |anchors|
    ensures FirstAt(anchors, url) < |anchors| <==> LinkIn(anchors, url)
    ensures FirstAt(anchors, url) < |anchors| ==>
      Eligible(anchors[FirstAt(anchors, url)]) && UrlOf(anchors[FirstAt(anchors, url)].value) == url
    ensures forall j :: 0 <= j < FirstAt(anchors, url) ==> !(Eligible(anchors[j]) && UrlOf(anchors[j].value) == url)
    decreases |anchors|
  {
    if anchors != [] && !(Eligible(anchors[0]) && UrlOf(anchors[0].value) == url) {
      var rest := anchors[1..];
      FirstAtFinds(rest, url);
      assert forall j :: 1 <= j < |anchors| ==> anchors[j] == rest[j - 1];
      if LinkIn(anchors, url) {
        var j :| 0 <= j < |anchors| && Eligible(anchors[j]) && url == UrlOf(anchors[j].value);
        assert rest[j - 1] == anchors[j];
      }
      if LinkIn(rest, url) {
        var j :| 0 <= j < |rest| && Eligible(rest[j]) && url == UrlOf(rest[j].value);
        assert anchors[j + 1] == rest[j];
      }
    }
  }

  /** A pass dispatches only URLs that were not in `seen` when it began. */
  lemma {:induction false} ScanFresh(anchors: seq<Option<string>>, st: CrawlState,
                                     answer: Request -> Response<Thread>, cookie: string)
    ensures var s := Scan(anchors, st, answer, cookie).state;
      forall k :: |st.dispatched| <= k < |s.dispatched| ==> s.dispatched[k] !in st.seen
    decreases |anchors|
  {
    if anchors != [] {
      var rest := anchors[1..];
      if !Eligible(anchors[0]) || UrlOf(anchors[0].value) in st.seen {
        ScanFresh(rest, st, answer, cookie);
        assert Scan(anchors, st, answer, cookie) == Scan(rest, st, answer, cookie);
        var s := Scan(rest, st, answer, cookie).state;
        assert forall k :: |st.dispatched| <= k < |s.dispatched| ==> s.dispatched[k] !in st.seen;
      } else {
        var url := UrlOf(anchors[0].value);
        var e := Extract(url, answer, cookie, st.files);
        var st' := st.(seen := st.seen + {url}, dispatched := st.dispatched + [url], files := e.files);
        if !Fatal(e.outcome) {
          ScanFresh(rest, st', answer, cookie);
          ScanGrows(rest, st', answer, cookie);
          var s := Scan(rest, st', answer, cookie).state;
          assert s.dispatched[|st.dispatched|] == st'.dispatched[|st.dispatched|] == url;
        }
      }
    }
  }

  /**
   * A pass dispatches its new URLs in discovery order: for any two of them, the
   * one dispatched first has the earlier first eligible anchor.
   */
  lemma {:induction false} ScanOrder(anchors: seq<Option<string>>, st: CrawlState,
                                     answer: Request -> Response<Thread>, cookie: string)
    ensures var s := Scan(anchors, st, answer, cookie).state;
      forall i, j :: |st.dispatched| <= i < j < |s.dispatched| ==>
        FirstAt(anchors, s.dispatched[i]) < FirstAt(anchors, s.dispatched[j])
    decreases |anchors|
  {
    if anchors != [] {
      var rest := anchors[1..];
      if !Eligible(anchors[0]) || UrlOf(anchors[0].value) in st.seen {
        ScanOrder(rest, st, answer, cookie);
        ScanFresh(rest, st, answer, cookie);
        assert Scan(anchors, st, answer, cookie) == Scan(rest, st, answer, cookie);
        var s := Scan(rest, st, answer, cookie).state;
        assert forall k :: |st.dispatched| <= k < |s.dispatched| ==>
          FirstAt(anchors, s.dispatched[k]) == 1 + FirstAt(rest, s.dispatched[k]);
      } else {
        var url := UrlOf(anchors[0].value);
        var e := Extract(url, answer, cookie, st.files);
        var st' := st.(seen := st.seen + {url}, dispatched := st.dispatched + [url], files := e.files);
        if !Fatal(e.outcome) {
          ScanOrder(rest, st', answer, cookie);
          ScanFresh(rest, st', answer, cookie);
          ScanGrows(rest, st', answer, cookie);
          var s := Scan(rest, st', answer, cookie).state;
          assert s.dispatched[|st.dispatched|] == st'.dispatched[|st.dispatched|] == url;
          assert FirstAt(anchors, url) == 0;
          assert forall k :: |st'.dispatched| <= k < |s.dispatched| ==>
            FirstAt(anchors, s.dispatched[k]) == 1 + FirstAt(rest, s.dispatched[k]);
        }
      }
    }
  }

  /** The files after `extract_post` has run on each of `urls` in turn. */
  function ExtractAll(files: Files, urls: seq<string>, answer: Request -> Response<Thread>, cookie: string): Files
    decreases |urls|
  {
    if urls == [] then files
    else ExtractAll(Extract(urls[0], answer, cookie, files).files, urls[1..], answer, cookie)
  }

  lemma {:induction false} ExtractAllConcat(files: Files, a: seq<string>, b: seq<string>,
                                            answer: Request -> Response<Thread>, cookie: string)
    ensures ExtractAll(files, a + b, answer, cookie) == ExtractAll(ExtractAll(files, a, answer, cookie), b, answer, cookie)
    decreases |a|
  {
    if a == [] {
      assert a + b == b;
    } else {
      assert (a + b)[0] == a[0];
      assert (a + b)[1..] == a[1..] + b;
      ExtractAllConcat(Extract(a[0], answer, cookie, files).files, a[1..], b, answer, cookie);
    }
  }

  /** The files a pass leaves are those of `extract_post` run once on each URL it dispatched, in order. */
  lemma {:induction false} ScanFiles(anchors: seq<Option<string>>, st: CrawlState,
                                     answer: Request -> Response<Thread>, cookie: string)
    ensures var s := Scan(anchors, st, answer, cookie).state;
      |st.dispatched| <= |s.dispatched| &&
      s.files == ExtractAll(st.files, s.dispatched[|st.dispatched|..], answer, cookie)
    decreases |anchors|
  {
    ScanGrows(anchors, st, answer, cookie);
    if anchors != [] {
      var s := Scan(anchors, st, answer, cookie).state;
      if !Eligible(anchors[0]) || UrlOf(anchors[0].value) in st.seen {
        ScanFiles(anchors[1..], st, answer, cookie);
      } else {
        var url := UrlOf(anchors[0].value);
        var e := Extract(url, answer, cookie, st.files);
        var st' := st.(seen := st.seen + {url}, dispatched := st.dispatched + [url], files := e.files);
        if Fatal(e.outcome) {
          assert s == st';
          assert s.dispatched[|st.dispatched|..] == [url];
        } else {
          ScanFiles(anchors[1..], st', answer, cookie);
          ScanGrows(anchors[1..], st', answer, cookie);
          var added := s.dispatched[|st.dispatched|..];
          assert added[0] == url;
          assert added[1..] == s.dispatched[|st'.dispatched|..];
        }
      }
    }
  }

  // ---------------------------------------------------------------------------
  // What the whole crawl does.

  /** An eligible anchor of one of the rounds from `r` on. */
  ghost predicate LinkInRounds(rounds: seq<seq<Option<string>>>, r: nat, url: string) {
    exists k :: r <= k < |rounds| && LinkIn(rounds[k], url)
  }

  /** The crawl keeps `seen` equal to the dispatched URLs, and dispatches no URL twice. */
  lemma {:induction false} CrawlConsistent(rounds: seq<seq<Option<string>>>, r: nat, st: CrawlState,
                                           answer: Request -> Response<Thread>, cookie: string)
    requires Consistent(st)
    ensures var o := Crawl(rounds, r, st, answer, cookie);
      Consistent(o.state)
    decreases |rounds| - r
  {
    if r < |rounds| {
      ScanConsistent(rounds[r], st, answer, cookie);
      var scan := Scan(rounds[r], st, answer, cookie);
      if scan.Scanned? && |scan.state.seen| != scan.state.lastCount {
        CrawlConsistent(rounds, r + 1, scan.state.(lastCount := |scan.state.seen|), answer, cookie);
      }
    }
  }

  /** Every URL the crawl dispatches is that of an eligible anchor of some round it read. */
  lemma {:induction false} CrawlSound(rounds: seq<seq<Option<string>>>, r: nat, st: CrawlState,
                                      answer: Request -> Response<Thread>, cookie: string)
    ensures var s := Crawl(rounds, r, st, answer, cookie).state;
      forall k :: |st.dispatched| <= k < |s.dispatched| ==> LinkInRounds(rounds, r, s.dispatched[k])
    decreases |rounds| - r
  {
    if r < |rounds| {
      ScanSound(rounds[r], st, answer, cookie);
      ScanGrows(rounds[r], st, answer, cookie);
      var scan := Scan(rounds[r], st, answer, cookie);
      forall u | LinkIn(rounds[r], u) ensures LinkInRounds(rounds, r, u) {
      }
      if scan.Scanned? && |scan.state.seen| != scan.state.lastCount {
        var next := scan.state.(lastCount := |scan.state.seen|);
        CrawlSound(rounds, r + 1, next, answer, cookie);
        CrawlGrows(rounds, r + 1, next, answer, cookie);
        forall u | LinkInRounds(rounds, r + 1, u) ensures LinkInRounds(rounds, r, u) {
        }
      }
    }
  }

  /** When the crawl stops, every eligible link of every round it read is in `seen`. */
  lemma {:induction false} CrawlComplete(rounds: seq<seq<Option<string>>>, r: nat, st: CrawlState,
                                         answer: Request -> Response<Thread>, cookie: string)
    requires Crawl(rounds, r, st, answer, cookie).Stopped?
    ensures var o := Crawl(rounds, r, st, answer, cookie);
      r < o.rounds <= |rounds| &&
      forall k, u :: r <= k < o.rounds && LinkIn(rounds[k], u) ==> u in o.state.seen
    decreases |rounds| - r
  {
    ScanComplete(rounds[r], st, answer, cookie);
    var s := Scan(rounds[r], st, answer, cookie).state;
    if |s.seen| != s.lastCount {
      var next := s.(lastCount := |s.seen|);
      CrawlComplete(rounds, r + 1, next, answer, cookie);
      CrawlGrows(rounds, r + 1, next, answer, cookie);
    }
  }

  /** The crawl only adds to `seen` and to the dispatched URLs. */
  lemma {:induction false} CrawlGrows(rounds: seq<seq<Option<string>>>, r: nat, st: CrawlState,
                                               answer: Request -> Response<Thread>, cookie: string)
    ensures var s := Crawl(rounds, r, st, answer, cookie).state;
      st.seen <= s.seen && st.dispatched <= s.dispatched
    decreases |rounds| - r
  {
    if r < |rounds| {
      ScanGrows(rounds[r], st, answer, cookie);
      var scan := Scan(rounds[r], st, answer, cookie);
      if scan.Scanned? && |scan.state.seen| != scan.state.lastCount {
        CrawlGrows(rounds, r + 1, scan.state.(lastCount := |scan.state.seen|), answer, cookie);
      }
    }
  }

  /**
   * Once `last_count` holds the size of `seen`, every round the crawl goes on
   * past added a link: the crawl stops on a round with no new link, and ends
   * with at least one new link per round it continued.
   */
  lemma {:induction false} CrawlGrowth(rounds: seq<seq<Option<string>>>, r: nat, st: CrawlState,
                                       answer: Request -> Response<Thread>, cookie: string)
    requires st.lastCount == |st.seen|
    ensures match Crawl(rounds, r, st, answer, cookie)
      case Stopped(s, n) => r < n && |s.seen| == s.lastCount && |s.seen| >= |st.seen| + (n - r - 1)
      case OutOfRounds(s) => |s.seen| >= |st.seen| + (|rounds| - r)
      case _ => true
    decreases |rounds| - r
  {
    if r < |rounds| {
      ScanGrows(rounds[r], st, answer, cookie);
      var scan := Scan(rounds[r], st, answer, cookie);
      if scan.Scanned? && |scan.state.seen| != scan.state.lastCount {
        SubsetSize(st.seen, scan.state.seen);
        CrawlGrowth(rounds, r + 1, scan.state.(lastCount := |scan.state.seen|), answer, cookie);
      }
    }
  }

  lemma SubsetSize(a: set<string>, b: set<string>)
    requires a <= b
    ensures |a| <= |b|
  {
    assert b == a + (b - a);
  }

  /**
   * From an empty `seen` and `last_count = -1`: the crawl reads at least two rounds
   * before it stops, since the first round can never match `-1`; it stops after
   * the first round that added nothing; and each round in between added a link.
   */
  lemma CrawlStops(rounds: seq<seq<Option<string>>>, files: Files,
                   answer: Request -> Response<Thread>, cookie: string)
    ensures match Crawl(rounds, 0, Start(files), answer, cookie)
      case Stopped(s, n) => 2 <= n <= |rounds| && |s.seen| == s.lastCount && |s.seen| >= n - 2
      case OutOfRounds(s) => |s.seen| >= |rounds| - 1
      case _ => true
  {
    if 0 < |rounds| {
      var scan := Scan(rounds[0], Start(files), answer, cookie);
      ScanGrows(rounds[0], Start(files), answer, cookie);
      if scan.Scanned? {
        assert |scan.state.seen| != -1;
        CrawlGrowth(rounds, 1, scan.state.(lastCount := |scan.state.seen|), answer, cookie);
        if Crawl(rounds, 0, Start(files), answer, cookie).Stopped? {
          CrawlComplete(rounds, 0, Start(files), answer, cookie);
        }
      }
    }
  }

  /** The files the crawl leaves are those of `extract_post` run once on each dispatched URL, in order. */
  lemma {:induction false} CrawlFiles(rounds: seq<seq<Option<string>>>, r: nat, st: CrawlState,
                                      answer: Request -> Response<Thread>, cookie: string)
    ensures var s := Crawl(rounds, r, st, answer, cookie).state;
      |st.dispatched| <= |s.dispatched| &&
      s.files == ExtractAll(st.files, s.dispatched[|st.dispatched|..], answer, cookie)
    decreases |rounds| - r
  {
    if r < |rounds| {
      ScanFiles(rounds[r], st, answer, cookie);
      var scan := Scan(rounds[r], st, answer, cookie);
      if scan.Scanned? && |scan.state.seen| != scan.state.lastCount {
        var next := scan.state.(lastCount := |scan.state.seen|);
        CrawlFiles(rounds, r + 1, next, answer, cookie);
        CrawlGrows(rounds, r + 1, next, answer, cookie);
        var s := Crawl(rounds, r, st, answer, cookie).state;
        var first := next.dispatched[|st.dispatched|..];
        var later := s.dispatched[|next.dispatched|..];
        assert s.dispatched[|st.dispatched|..] == first + later;
        ExtractAllConcat(st.files, first, later, answer, cookie);
      }
    }
  }

  /**
   * `main` as a whole: without a session cookie nothing is crawled; otherwise the
   * dispatched URLs are exactly `seen`, each once, each from an eligible anchor,
   * in discovery order, and no URL ever makes `extract_post` fail on its split.
   */
  lemma RunFacts(cookies: seq<Cookie>, rounds: seq<seq<Option<string>>>,
                 answer: Request -> Response<Thread>, files: Files)
    ensures var m := Run(cookies, rounds, answer, files);
      (m.NoSession? <==> SessionHeader(cookies).None?) &&
      (m.Crawled? ==>
        var o := m.outcome;
        Consistent(o.state) &&
        o.state.files == ExtractAll(files, o.state.dispatched, answer, SessionHeader(cookies).value) &&
        (forall k :: 0 <= k < |o.state.dispatched| ==> LinkInRounds(rounds, 0, o.state.dispatched[k])) &&
        (forall i, j :: 0 <= i < j < |o.state.dispatched| ==>
          DiscoveredBefore(rounds, 0, o.state.dispatched[i], o.state.dispatched[j])) &&
        (o.Aborted? ==> o.failure.RequestRaised?))
  {
    if SessionHeader(cookies).Some? {
      var cookie := SessionHeader(cookies).value;
      assert Consistent(Start(files));
      CrawlConsistent(rounds, 0, Start(files), answer, cookie);
      CrawlSound(rounds, 0, Start(files), answer, cookie);
      CrawlNeverBadUrl(rounds, 0, Start(files), answer, cookie);
      CrawlFiles(rounds, 0, Start(files), answer, cookie);
      CrawlOrder(rounds, 0, Start(files), answer, cookie);
      var s := Crawl(rounds, 0, Start(files), answer, cookie).state;
      assert s.dispatched[0..] == s.dispatched;
    }
  }

  lemma {:induction false} CrawlNeverBadUrl(rounds: seq<seq<Option<string>>>, r: nat, st: CrawlState,
                                            answer: Request -> Response<Thread>, cookie: string)
    ensures var o := Crawl(rounds, r, st, answer, cookie); o.Aborted? ==> o.failure.RequestRaised?
    decreases |rounds| - r
  {
    if r < |rounds| {
      ScanNeverBadUrl(rounds[r], st, answer, cookie);
      var scan := Scan(rounds[r], st, answer, cookie);
      if scan.Scanned? && |scan.state.seen| != scan.state.lastCount {
        CrawlNeverBadUrl(rounds, r + 1, scan.state.(lastCount := |scan.state.seen|), answer, cookie);
      }
    }
  }

  /** The first round, from `r` on, with an eligible anchor for `url`; `|rounds|` when there is none. */
  function FirstRound(rounds: seq<seq<Option<string>>>, r: nat, url: string): nat
    decreases |rounds| - r
  {
    if r >= |rounds| then |rounds|
    else if FirstAt(rounds[r], url) < |rounds[r]| then r
    else FirstRound(rounds, r + 1, url)
  }

  /** `FirstRound` is a round from `r` on that has the link, and no round before it from `r` on has it. */
  lemma {:induction false} FirstRoundFinds(rounds: seq<seq<Option<string>>>, r: nat, url: string)
    ensures FirstRound(rounds, r, url) < |rounds| ==>
      r <= FirstRound(rounds, r, url) && LinkIn(rounds[FirstRound(rounds, r, url)], url)
    ensures forall k :: r <= k < FirstRound(rounds, r, url) && k < |rounds| ==> !LinkIn(rounds[k], url)
    decreases |rounds| - r
  {
    if r < |rounds| {
      FirstAtFinds(rounds[r], url);
      if FirstAt(rounds[r], url) == |rounds[r]| {
        FirstRoundFinds(rounds, r + 1, url);
      }
    }
  }

  /** `u` is discovered before `v`: in an earlier round, or in the same round at an earlier anchor. */
  predicate DiscoveredBefore(rounds: seq<seq<Option<string>>>, r: nat, u: string, v: string) {
    var ku, kv := FirstRound(rounds, r, u), FirstRound(rounds, r, v);
    ku < |rounds| && kv < |rounds| &&
    (ku < kv || (ku == kv && FirstAt(rounds[ku], u) < FirstAt(rounds[kv], v)))
  }

  /**
   * The crawl dispatches in discovery order: each URL in the first round that
   * shows it, the URLs of one round in the order of their first anchors, and
   * never a URL that was already in `seen`.
   */
  lemma {:induction false} CrawlOrder(rounds: seq<seq<Option<string>>>, r: nat, st: CrawlState,
                                      answer: Request -> Response<Thread>, cookie: string)
    ensures var s := Crawl(rounds, r, st, answer, cookie).state;
      && |st.dispatched| <= |s.dispatched|
      && (forall k :: |st.dispatched| <= k < |s.dispatched| ==> s.dispatched[k] !in st.seen)
      && (forall k :: |st.dispatched| <= k < |s.dispatched| ==> r <= FirstRound(rounds, r, s.dispatched[k]) < |rounds|)
      && (forall i, j :: |st.dispatched| <= i < j < |s.dispatched| ==>
            DiscoveredBefore(rounds, r, s.dispatched[i], s.dispatched[j]))
    decreases |rounds| - r
  {
    if r < |rounds| {
      var a := rounds[r];
      ScanGrows(a, st, answer, cookie);
      ScanFresh(a, st, answer, cookie);
      ScanSound(a, st, answer, cookie);
      ScanOrder(a, st, answer, cookie);
      var scan := Scan(a, st, answer, cookie);
      var s1 := scan.state;
      forall k | |st.dispatched| <= k < |s1.dispatched|
        ensures FirstRound(rounds, r, s1.dispatched[k]) == r
      {
        FirstAtFinds(a, s1.dispatched[k]);
      }
      if scan.Scanned? && |s1.seen| != s1.lastCount {
        var next := s1.(lastCount := |s1.seen|);
        CrawlOrder(rounds, r + 1, next, answer, cookie);
        CrawlGrows(rounds, r + 1, next, answer, cookie);
        ScanComplete(a, st, answer, cookie);
        var s := Crawl(rounds, r + 1, next, answer, cookie).state;
        assert Crawl(rounds, r, st, answer, cookie).state == s;
        forall k | |s1.dispatched| <= k < |s.dispatched|
          ensures FirstRound(rounds, r, s.dispatched[k]) == FirstRound(rounds, r + 1, s.dispatched[k])
        {
          FirstAtFinds(a, s.dispatched[k]);
        }
        forall k | |st.dispatched| <= k < |s1.dispatched|
          ensures s.dispatched[k] == s1.dispatched[k]
        {
        }
      }
    }
  }
}
