/**
 * The keyword field of the web front end (reddit_scraper_app.py): the text is
 * split at commas, each piece is stripped of surrounding whitespace, and empty
 * pieces are dropped. The field's default text is the default keywords joined
 * with `", "`.
 */
module KeywordInput {
  import opened Text

  /** `str.isspace` for one character: the characters Python's `str.strip()` removes. */
  predicate IsSpace(c: char) {
    var n := c as int;
    n == 0x20 || 0x09 <= n <= 0x0D || 0x1C <= n <= 0x1F || n == 0x85 || n == 0xA0
    || n == 0x1680 || 0x2000 <= n <= 0x200A || n == 0x2028 || n == 0x2029
    || n == 0x202F || n == 0x205F || n == 0x3000
  }

  function StripStart(s: string): string {
    if s != [] && IsSpace(s[0]) then StripStart(s[1..]) else s
  }

  function StripEnd(s: string): string {
    if s != [] && IsSpace(s[|s| - 1]) then StripEnd(s[..|s| - 1]) else s
  }

  /** `k.strip()`. */
  function Strip(s: string): string {
    StripEnd(StripStart(s))
  }

  /** The stripped pieces that are not empty, in order. */
  function KeepNonEmpty(pieces: seq<string>): seq<string> {
    if pieces == [] then []
    else (if Strip(pieces[0]) != [] then [Strip(pieces[0])] else []) + KeepNonEmpty(pieces[1..])
  }

  /** `[k.strip() for k in keywords_input.split(",") if k.strip()]`. */
  function ParseKeywords(input: string): seq<string> {
    KeepNonEmpty(Split(input, ','))
  }

  /** `", ".join(keywords)`. */
  function JoinKeywords(keywords: seq<string>): string {
    if keywords == [] then []
    else if |keywords| == 1 then keywords[0]
    else keywords[0] + ", " + JoinKeywords(keywords[1..])
  }

  /** A keyword as the parser leaves it: not empty, no comma, no whitespace at either end. */
  ghost predicate Clean(k: string) {
    k != [] && ',' !in k && !IsSpace(k[0]) && !IsSpace(k[|k| - 1])
  }

  // ---------------------------------------------------------------------------

  /** Stripping the front leaves a suffix that does not start with whitespace. */
  lemma {:induction false} StripStartShape(s: string)
    ensures |StripStart(s)| <= |s| && StripStart(s) == s[|s| - |StripStart(s)|..]
    ensures StripStart(s) != [] ==> !IsSpace(StripStart(s)[0])
  {
    if s != [] && IsSpace(s[0]) {
      StripStartShape(s[1..]);
      assert s[1..][|s| - 1 - |StripStart(s)|..] == s[|s| - |StripStart(s)|..];
    }
  }

  /** Stripping the end leaves a prefix that does not end with whitespace. */
  lemma {:induction false} StripEndShape(s: string)
    ensures |StripEnd(s)| <= |s| && StripEnd(s) == s[..|StripEnd(s)|]
    ensures StripEnd(s) != [] ==> !IsSpace(StripEnd(s)[|StripEnd(s)| - 1])
  {
    if s != [] && IsSpace(s[|s| - 1]) {
      var init := s[..|s| - 1];
      StripEndShape(init);
      assert init[..|StripEnd(s)|] == s[..|StripEnd(s)|];
    }
  }

  /** A stripped piece of a comma-free string is comma-free and has no whitespace at its ends. */
  lemma StripShape(s: string)
    requires ',' !in s
    ensures Strip(s) != [] ==> Clean(Strip(s))
  {
    StripStartShape(s);
    var front := StripStart(s);
    StripEndShape(front);
    var r := Strip(s);
    if r != [] {
      assert r[0] == front[0];
      forall i | 0 <= i < |r| ensures r[i] != ',' {
        assert r[i] == front[i] == s[|s| - |front| + i];
      }
    }
  }

  /** Every keyword the parser returns is clean; in particular none is empty. */
  lemma {:induction false} ParsedAreClean(input: string)
    ensures forall k :: k in ParseKeywords(input) ==> Clean(k)
  {
    SplitPiecesLackSep(input, ',');
    KeptAreClean(Split(input, ','));
  }

  lemma {:induction false} KeptAreClean(pieces: seq<string>)
    requires forall i :: 0 <= i < |pieces| ==> ',' !in pieces[i]
    ensures forall k :: k in KeepNonEmpty(pieces) ==> Clean(k)
  {
    if pieces != [] {
      StripShape(pieces[0]);
      assert forall i :: 1 <= i < |pieces| ==> pieces[1..][i - 1] == pieces[i];
      KeptAreClean(pieces[1..]);
    }
  }

  /** The parser never yields the empty keyword, which would match every text. */
  lemma NoEmptyKeyword(input: string)
    ensures "" !in ParseKeywords(input)
  {
    ParsedAreClean(input);
  }

  /** A clean keyword is left alone by stripping. */
  lemma StripKeepsClean(k: string)
    requires Clean(k)
    ensures Strip(k) == k
  {
  }

  /** A space in front of a piece is stripped away. */
  lemma KeepIgnoresLeadingSpace(p: string, rest: seq<string>)
    ensures KeepNonEmpty([[' '] + p] + rest) == KeepNonEmpty([p] + rest)
  {
    assert StripStart([' '] + p) == StripStart(p) by {
      assert ([' '] + p)[1..] == p;
    }
    assert ([[' '] + p] + rest)[1..] == rest == ([p] + rest)[1..];
  }

  /** Parsing the joined text of clean keywords gives those keywords back, so the default field text parses to the default keywords. */
  lemma {:induction false} ParseJoinRoundTrip(keywords: seq<string>)
    requires forall i :: 0 <= i < |keywords| ==> Clean(keywords[i])
    ensures ParseKeywords(JoinKeywords(keywords)) == keywords
  {
    if keywords == [] {
      assert Split("", ',') == [[]];
    } else {
      var k := keywords[0];
      StripKeepsClean(k);
      SplitWithout(k, ',');
      if |keywords| == 1 {
        assert KeepNonEmpty([k]) == [k] + KeepNonEmpty([]);
      } else {
        var rest := keywords[1..];
        var y := JoinKeywords(rest);
        assert forall i :: 0 <= i < |rest| ==> rest[i] == keywords[i + 1];
        ParseJoinRoundTrip(rest);
        var pieces := Split(y, ',');
        assert JoinKeywords(keywords) == k + [','] + ([' '] + y);
        SplitAt(k, [' '] + y, ',');
        SplitFront(' ', y, ',');
        var tail := Split([' '] + y, ',');
        assert tail == [[' '] + pieces[0]] + pieces[1..];
        assert Split(JoinKeywords(keywords), ',') == [k] + tail;
        assert ([k] + tail)[1..] == tail;
        KeepIgnoresLeadingSpace(pieces[0], pieces[1..]);
        assert [pieces[0]] + pieces[1..] == pieces;
      }
    }
  }
}
