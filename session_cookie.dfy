/**
 * The session lookup of `main` (main.py): the `Cookie` header is built from
 * the first saved cookie named `reddit_session`; without one, `RuntimeError`
 * is raised before anything is crawled.
 */
module SessionCookie {
  import opened Options

  /** A saved browser cookie, as `json.load` gives it back: its `name` and `value`. */
  datatype Cookie = Cookie(name: string, value: string)

  const SessionName: string := "reddit_session"

  /** The `Cookie` header value for a session cookie's value. */
  function HeaderFor(value: string): string {
    SessionName + "=" + value
  }

  /** The header from the first cookie named `reddit_session`, or None when there is none. */
  function SessionHeader(cookies: seq<Cookie>): Option<string> {
    if cookies == [] then None
    else if cookies[0].name == SessionName then Some(HeaderFor(cookies[0].value))
    else SessionHeader(cookies[1..])
  }

  /** The loop over the cookies with its `break`, and the `if not reddit_cookie` test after it. */
  method FindSessionCookie(cookies: seq<Cookie>) returns (header: Option<string>)
    ensures header == SessionHeader(cookies)
  {
    var i := 0;
    while i < |cookies|
      invariant i <= |cookies|
      invariant SessionHeader(cookies[i..]) == SessionHeader(cookies)
    {
      if cookies[i].name == SessionName {
        return Some(HeaderFor(cookies[i].value));
      }
      assert cookies[i..][1..] == cookies[i + 1..];
      i := i + 1;
    }
    return None;
  }

  // ---------------------------------------------------------------------------

  /**
   * There is no header exactly when no cookie is named `reddit_session`; otherwise
   * it is `reddit_session=<value>` of the first one so named, and never empty, so
   * the truthiness test fails only when the search did.
   */
  lemma {:induction false} SessionHeaderIsFirstMatch(cookies: seq<Cookie>)
    ensures SessionHeader(cookies).None? <==> forall i :: 0 <= i < |cookies| ==> cookies[i].name != SessionName
    ensures SessionHeader(cookies).Some? ==>
      SessionHeader(cookies).value != [] &&
      exists i :: 0 <= i < |cookies| && cookies[i].name == SessionName
        && SessionHeader(cookies).value == HeaderFor(cookies[i].value)
        && forall j :: 0 <= j < i ==> cookies[j].name != SessionName
  {
    if cookies != [] {
      SessionHeaderIsFirstMatch(cookies[1..]);
      if cookies[0].name != SessionName {
        assert forall i :: 1 <= i < |cookies| ==> cookies[i] == cookies[1..][i - 1];
        if SessionHeader(cookies).Some? {
          var i :| 0 <= i < |cookies[1..]| && cookies[1..][i].name == SessionName
            && SessionHeader(cookies).value == HeaderFor(cookies[1..][i].value)
            && forall j :: 0 <= j < i ==> cookies[1..][j].name != SessionName;
          assert cookies[i + 1] == cookies[1..][i];
          assert forall j :: 0 <= j < i + 1 ==> cookies[j].name != SessionName;
        }
      }
    }
  }
}
