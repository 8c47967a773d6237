/** The keyword matcher `contains_keywords` (test.py). */
module Keywords {
  import opened Text

  /** `any(k.lower() in text.lower() for k in keywords)`. */
  function ContainsKeywords(text: string, keywords: seq<string>): bool {
    if keywords == [] then false
    else Contains(Lower(text), Lower(keywords[0])) || ContainsKeywords(text, keywords[1..])
  }

  /**
   * The matcher is true exactly when some keyword, lowered, occurs in the lowered
   * text: never for an empty list, always when the list holds the empty string.
   */
  lemma {:induction false} MatchesIffSomeKeyword(text: string, keywords: seq<string>)
    ensures ContainsKeywords(text, keywords) <==> exists k :: k in keywords && Contains(Lower(text), Lower(k))
    ensures keywords == [] ==> !ContainsKeywords(text, keywords)
    ensures "" in keywords ==> ContainsKeywords(text, keywords)
  {
    if keywords != [] {
      MatchesIffSomeKeyword(text, keywords[1..]);
      assert keywords[0] in keywords;
      assert forall k :: k in keywords <==> k == keywords[0] || k in keywords[1..];
    }
  }

  /** The matcher in terms of the substring relation itself rather than its decision procedure. */
  lemma MatchesIffOccurs(text: string, keywords: seq<string>)
    ensures ContainsKeywords(text, keywords) <==> exists k :: k in keywords && Occurs(Lower(k), Lower(text))
  {
    MatchesIffSomeKeyword(text, keywords);
    forall k | k in keywords
      ensures Contains(Lower(text), Lower(k)) <==> Occurs(Lower(k), Lower(text))
    {
      ContainsIsOccurs(Lower(text), Lower(k));
    }
  }

  /** Case does not matter on either side: matching against lowered text or lowered keywords changes nothing. */
  lemma CaseInsensitive(text: string, keywords: seq<string>)
    ensures ContainsKeywords(Lower(text), keywords) == ContainsKeywords(text, keywords)
    ensures ContainsKeywords(text, LowerAll(keywords)) == ContainsKeywords(text, keywords)
  {
    MatchesIffSomeKeyword(text, keywords);
    MatchesIffSomeKeyword(Lower(text), keywords);
    MatchesIffSomeKeyword(text, LowerAll(keywords));
    LowerIdempotent(text);
    forall k | k in keywords
      ensures Lower(k) in LowerAll(keywords) && Lower(Lower(k)) == Lower(k)
    {
      LowerIdempotent(k);
      var i :| 0 <= i < |keywords| && keywords[i] == k;
      assert LowerAll(keywords)[i] == Lower(k);
    }
    forall k' | k' in LowerAll(keywords)
      ensures exists k :: k in keywords && Lower(k) == k' && Lower(k') == Lower(k)
    {
      var i :| 0 <= i < |LowerAll(keywords)| && LowerAll(keywords)[i] == k';
      LowerIdempotent(keywords[i]);
      assert keywords[i] in keywords;
    }
  }

  /** Every keyword of a list, lowered. */
  function LowerAll(keywords: seq<string>): (r: seq<string>)
    ensures |r| == |keywords|
    ensures forall i :: 0 <= i < |keywords| ==> r[i] == Lower(keywords[i])
  {
    if keywords == [] then [] else [Lower(keywords[0])] + LowerAll(keywords[1..])
  }

  /**
   * The admission test runs on `title + " " + body`: a post whose title or body
   * matches on its own is admitted.
   */
  lemma MatchInPart(a: string, sep: string, b: string, keywords: seq<string>)
    requires ContainsKeywords(a, keywords) || ContainsKeywords(b, keywords)
    ensures ContainsKeywords(a + sep + b, keywords)
  {
    MatchesIffSomeKeyword(a, keywords);
    MatchesIffSomeKeyword(b, keywords);
    MatchesIffSomeKeyword(a + sep + b, keywords);
    if ContainsKeywords(a, keywords) {
      var k :| k in keywords && Contains(Lower(a), Lower(k));
      HitInLeft(a, sep, b, Lower(k));
    } else {
      var k :| k in keywords && Contains(Lower(b), Lower(k));
      HitInRight(a, sep, b, Lower(k));
    }
  }

  lemma HitInLeft(a: string, sep: string, b: string, k: string)
    requires Contains(Lower(a), k)
    ensures Contains(Lower(a + sep + b), k)
  {
    LowerConcat(a, sep);
    LowerConcat(a + sep, b);
    ContainsExtended(Lower(a), k, Lower(sep));
    ContainsExtended(Lower(a + sep), k, Lower(b));
  }

  lemma HitInRight(a: string, sep: string, b: string, k: string)
    requires Contains(Lower(b), k)
    ensures Contains(Lower(a + sep + b), k)
  {
    LowerConcat(a + sep, b);
    ContainsExtended(Lower(b), k, Lower(a + sep));
  }

  /** `Contains` is preserved by adding text on either side. */
  lemma ContainsExtended(t: string, k: string, u: string)
    requires Contains(t, k)
    ensures Contains(t + u, k) && Contains(u + t, k)
  {
    ContainsIsOccurs(t, k);
    OccursInContext(k, [], t, u);
    assert [] + t + u == t + u;
    ContainsIsOccurs(t + u, k);
    OccursInContext(k, u, t, []);
    assert u + t + [] == u + t;
    ContainsIsOccurs(u + t, k);
  }
}
