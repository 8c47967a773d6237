/**
 * The post id of a post URL (main.py): `url.rstrip("/").split("/")[-2]`, the
 * second-to-last `/`-separated segment once trailing slashes are removed.
 */
module PostUrl {
  import opened Options
  import opened Text

  /** `s.rstrip("/")`: drops every trailing slash. */
  function RStrip(s: string): string {
    if s != [] && s[|s| - 1] == '/' then RStrip(s[..|s| - 1]) else s
  }

  /** `"/".join(parts)`. */
  function Join(parts: seq<string>): string
    requires |parts| >= 1
  {
    if |parts| == 1 then parts[0] else parts[0] + "/" + Join(parts[1..])
  }

  /** `post_id`: the second-to-last piece, or None where `[-2]` raises `IndexError` (a URL without a slash). */
  function PostIdOf(url: string): Option<string> {
    var parts := Split(RStrip(url), '/');
    if |parts| < 2 then None else Some(parts[|parts| - 2])
  }

  /** The endpoint `extract_post` requests for a post id. */
  function ApiUrl(postId: string): string {
    "https://www.reddit.com/comments/" + postId + ".json?raw_json=1"
  }

  /** What the crawl prefixes to a post link's `href`. */
  const Origin: string := "https://www.reddit.com"

  // ---------------------------------------------------------------------------

  /** The endpoint is the fixed prefix, the id and the fixed suffix, so distinct ids request distinct endpoints. */
  lemma ApiUrlInjective(a: string, b: string)
    ensures ApiUrl(a)[..32] == "https://www.reddit.com/comments/"
    ensures ApiUrl(a)[32..|ApiUrl(a)| - 16] == a
    ensures ApiUrl(a) == ApiUrl(b) ==> a == b
  {
    var pre, post := "https://www.reddit.com/comments/", ".json?raw_json=1";
    assert |pre| == 32 && |post| == 16;
    assert ApiUrl(a) == pre + a + post;
    assert (pre + a + post)[32..|pre + a + post| - 16] == a;
    assert ApiUrl(b) == pre + b + post;
    assert (pre + b + post)[32..|pre + b + post| - 16] == b;
  }

  /** Stripping removes trailing slashes and nothing else. */
  lemma {:induction false} RStripShape(s: string)
    ensures RStrip(s) <= s
    ensures RStrip(s) != [] ==> RStrip(s)[|RStrip(s)| - 1] != '/'
    ensures forall i :: |RStrip(s)| <= i < |s| ==> s[i] == '/'
  {
    if s != [] && s[|s| - 1] == '/' {
      var init := s[..|s| - 1];
      RStripShape(init);
      assert forall i :: |RStrip(s)| <= i < |init| ==> s[i] == init[i];
    }
  }

  /** Slashes added after a string that does not end in one are all stripped. */
  lemma {:induction false} RStripPrefix(p: string, h: string)
    requires p != [] && p[|p| - 1] != '/'
    ensures RStrip(p + h) == p + RStrip(h)
    decreases |h|
  {
    if h != [] && h[|h| - 1] == '/' {
      var init := h[..|h| - 1];
      assert (p + h)[..|p + h| - 1] == p + init;
      RStripPrefix(p, init);
    } else if h == [] {
      assert p + h == p;
    }
  }

  /** Joining the pieces with slashes gives the string back. */
  lemma {:induction false} JoinSplit(s: string)
    ensures Join(Split(s, '/')) == s
  {
    if s != [] {
      JoinSplit(s[1..]);
      var rest := Split(s[1..], '/');
      if s[0] == '/' {
        assert Split(s, '/')[1..] == rest;
        assert s == [] + "/" + s[1..];
      } else {
        var parts := Split(s, '/');
        assert parts[1..] == rest[1..];
        if |rest| == 1 {
          assert s == [s[0]] + rest[0];
        } else {
          assert s[1..] == rest[0] + "/" + Join(rest[1..]);
          assert s == ([s[0]] + rest[0]) + "/" + Join(rest[1..]);
        }
      }
    }
  }

  /** A URL that ends `/comments/<id>/<slug>/`, with any number of final slashes, gives `<id>`. */
  lemma IdFromCommentsUrl(prefix: string, id: string, slug: string, trail: string)
    requires '/' !in id && '/' !in slug && slug != []
    requires forall i :: 0 <= i < |trail| ==> trail[i] == '/'
    ensures PostIdOf(prefix + "/comments/" + id + "/" + slug + trail) == Some(id)
  {
    var body := prefix + "/comments/" + id + "/" + slug;
    assert body + trail == (prefix + "/comments/" + id + "/") + slug + trail;
    StripSlashes(prefix + "/comments/" + id + "/", slug, trail);
    assert body == (prefix + "/comments/" + id) + "/" + slug;
    SplitAt(prefix + "/comments/" + id, slug, '/');
    assert prefix + "/comments/" + id == (prefix + "/comments") + "/" + id;
    SplitAt(prefix + "/comments", id, '/');
    SplitWithout(id, '/');
    SplitWithout(slug, '/');
  }

  /** A URL that ends `/comments/<id>/` gives the word `comments`, not the id. */
  lemma CommentsWordFromShortUrl(prefix: string, id: string)
    requires '/' !in id && id != []
    ensures PostIdOf(prefix + "/comments/" + id + "/") == Some("comments")
  {
    var body := prefix + "/comments/" + id;
    StripSlashes(prefix + "/comments/", id, "/");
    assert prefix + "/comments/" + id + "/" == (prefix + "/comments/") + id + "/";
    assert body == (prefix + "/comments") + "/" + id;
    SplitAt(prefix + "/comments", id, '/');
    assert prefix + "/comments" == prefix + "/" + "comments";
    SplitAt(prefix, "comments", '/');
    assert '/' !in "comments";
    SplitWithout("comments", '/');
    SplitWithout(id, '/');
  }

  /** Trailing slashes after a non-empty slash-free last piece are stripped down to it. */
  lemma StripSlashes(p: string, last: string, trail: string)
    requires last != [] && '/' !in last
    requires forall i :: 0 <= i < |trail| ==> trail[i] == '/'
    ensures RStrip(p + last + trail) == p + last
  {
    assert last[|last| - 1] != '/' by { assert last[|last| - 1] in last; }
    RStripPrefix(p + last, trail);
    AllSlashes(trail);
  }

  /** A run of slashes strips to nothing. */
  lemma {:induction false} AllSlashes(t: string)
    requires forall i :: 0 <= i < |t| ==> t[i] == '/'
    ensures RStrip(t) == []
  {
    if t != [] {
      AllSlashes(t[..|t| - 1]);
    }
  }

  /** Every URL the crawl builds from a link has a post id: `[-2]` never raises there. */
  lemma CrawlUrlHasId(href: string)
    ensures PostIdOf(Origin + href).Some?
  {
    assert Origin == "https:" + "/" + "/www.reddit.com";
    SlashKeepsId("https:", "/www.reddit.com", href);
  }

  /** A slash followed by text that does not end in one survives stripping, so `[-2]` exists. */
  lemma SlashKeepsId(a: string, b: string, h: string)
    requires b != [] && b[|b| - 1] != '/'
    ensures PostIdOf(a + "/" + b + h).Some?
  {
    var p := a + "/" + b;
    RStripPrefix(p, h);
    assert p + RStrip(h) == a + "/" + (b + RStrip(h));
    SplitAt(a, b + RStrip(h), '/');
  }
}
