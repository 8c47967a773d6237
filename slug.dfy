/** The slug generator `slugify` (test.py), which names the per-post directories. */
module Slug {
  import opened Text

  /** What `slugify` returns when nothing of the title survives. */
  const Fallback: string := "untitled"

  /** The default `max_len`. */
  const DefaultMaxLen: int := 100

  predicate IsAscii(c: char) {
    c as int < 128
  }

  /** The regex class `[a-z0-9]`. */
  predicate IsSlugChar(c: char) {
    'a' <= c <= 'z' || '0' <= c <= '9'
  }

  /** Only `a`-`z`, `0`-`9` and `-`. */
  ghost predicate SlugAlphabet(s: string) {
    forall i :: 0 <= i < |s| ==> IsSlugChar(s[i]) || s[i] == '-'
  }

  /** No two dashes in a row. */
  ghost predicate NoDoubleDash(s: string) {
    forall i :: 0 <= i < |s| - 1 ==> !(s[i] == '-' && s[i + 1] == '-')
  }

  /** What the substitution produces: the slug alphabet, dashes never doubled. */
  ghost predicate IsCollapsed(s: string) {
    SlugAlphabet(s) && NoDoubleDash(s)
  }

  /** The shape of a collapsed and stripped title. */
  ghost predicate IsCleanSlug(s: string) {
    IsCollapsed(s) && (s != [] ==> s[0] != '-' && s[|s| - 1] != '-')
  }

  // ---------------------------------------------------------------------------
  // The stages of `slugify`, in the order the source chains them.

  /** `.encode("ascii", "ignore").decode("ascii")`: non-ASCII characters are dropped. */
  function AsciiOnly(s: string): string {
    if s == [] then []
    else (if IsAscii(s[0]) then [s[0]] else []) + AsciiOnly(s[1..])
  }

  /** Drops the leading run of characters outside `[a-z0-9]`. */
  function DropRun(s: string): (r: string)
    ensures |r| <= |s|
  {
    if s != [] && !IsSlugChar(s[0]) then DropRun(s[1..]) else s
  }

  /**
   * `re.sub(r"[^a-z0-9]+", "-", s)`: every maximal run of characters outside
   * `[a-z0-9]` becomes a single dash.
   */
  function Collapse(s: string): string
    decreases |s|
  {
    if s == [] then []
    else if IsSlugChar(s[0]) then [s[0]] + Collapse(s[1..])
    else ['-'] + Collapse(DropRun(s[1..]))
  }

  /** `.strip("-")`, leading half. */
  function StripLeading(s: string): string {
    if s != [] && s[0] == '-' then StripLeading(s[1..]) else s
  }

  /** `.strip("-")`, trailing half. */
  function StripTrailing(s: string): string {
    if s != [] && s[|s| - 1] == '-' then StripTrailing(s[..|s| - 1]) else s
  }

  /** `.strip("-")`: drops every dash at either end. */
  function Strip(s: string): string {
    StripTrailing(StripLeading(s))
  }

  /** Python's `s[:n]`, a negative `n` counting from the end. */
  function Head(s: string, n: int): string {
    if 0 <= n then (if n <= |s| then s[..n] else s)
    else if -n <= |s| then s[..|s| + n] else []
  }

  /** The title after lowercasing, substitution and stripping, before truncation. */
  function Clean(title: string): string {
    Strip(Collapse(Lower(AsciiOnly(title))))
  }

  /**
   * `slugify(title, max_len)`: a file-name-safe slug, never empty. Only
   * `a`-`z`, `0`-`9` and `-` survive (no underscore, dot or slash), dashes
   * never repeat and never lead, and a non-negative `max_len` bounds the
   * length unless the fallback is returned.
   */
  function Slugify(title: string, maxLen: int): (r: string)
    ensures r != []
    ensures SlugAlphabet(r) && NoDoubleDash(r) && r[0] != '-'
    ensures '_' !in r && '.' !in r && '/' !in r
    ensures 0 <= maxLen ==> |r| <= maxLen || r == Fallback
  {
    var clean := Clean(title);
    CleanIsClean(title);
    var head := Head(clean, maxLen);
    HeadIsPrefix(clean, maxLen);
    PrefixOfClean(clean, head);
    FallbackIsClean();
    var r := if head != [] then head else Fallback;
    NoSpecialChars(r);
    r
  }

  // ---------------------------------------------------------------------------
  // Each stage's contract.

  /** Dropping non-ASCII characters leaves ASCII text alone. */
  lemma {:induction false} AsciiOnlyKeepsAscii(s: string)
    requires forall i :: 0 <= i < |s| ==> IsAscii(s[i])
    ensures AsciiOnly(s) == s
  {
    if s != [] {
      AsciiOnlyKeepsAscii(s[1..]);
      assert s == [s[0]] + s[1..];
    }
  }

  /** After the leading run is dropped, the string is empty or starts with a letter or digit. */
  lemma {:induction false} DropRunStopsAtSlugChar(s: string)
    ensures DropRun(s) != [] ==> IsSlugChar(DropRun(s)[0])
  {
    if s != [] && !IsSlugChar(s[0]) {
      DropRunStopsAtSlugChar(s[1..]);
    }
  }

  /** The substitution's output: collapsed, empty only for empty input, led by a dash exactly when the input is led by a separator. */
  lemma {:induction false} CollapseShape(s: string)
    ensures IsCollapsed(Collapse(s))
    ensures Collapse(s) == [] <==> s == []
    ensures Collapse(s) != [] ==> (Collapse(s)[0] == '-' <==> !IsSlugChar(s[0]))
    decreases |s|
  {
    if s != [] {
      var rest := if IsSlugChar(s[0]) then s[1..] else DropRun(s[1..]);
      CollapseShape(rest);
      var r := Collapse(s);
      var tail := Collapse(rest);
      assert r == [r[0]] + tail;
      if !IsSlugChar(s[0]) {
        DropRunStopsAtSlugChar(s[1..]);
        assert tail != [] ==> tail[0] != '-';
      }
      assert forall i :: 1 <= i < |r| ==> r[i] == tail[i - 1];
    }
  }

  /** The letters and digits of a string, in order. */
  function SlugChars(s: string): string {
    if s == [] then [] else (if IsSlugChar(s[0]) then [s[0]] else []) + SlugChars(s[1..])
  }

  lemma {:induction false} SlugCharsConcat(a: string, b: string)
    ensures SlugChars(a + b) == SlugChars(a) + SlugChars(b)
  {
    if a == [] {
      assert a + b == b;
    } else {
      assert (a + b)[1..] == a[1..] + b;
      SlugCharsConcat(a[1..], b);
    }
  }

  lemma {:induction false} DropRunKeepsSlugChars(s: string)
    ensures SlugChars(DropRun(s)) == SlugChars(s)
    decreases |s|
  {
    if s != [] && !IsSlugChar(s[0]) {
      DropRunKeepsSlugChars(s[1..]);
    }
  }

  /** The substitution replaces separators only: every letter and digit survives, in order. */
  lemma {:induction false} CollapseKeepsSlugChars(s: string)
    ensures SlugChars(Collapse(s)) == SlugChars(s)
    decreases |s|
  {
    if s == [] {
    } else if IsSlugChar(s[0]) {
      CollapseKeepsSlugChars(s[1..]);
      SlugCharsConcat([s[0]], Collapse(s[1..]));
    } else {
      CollapseKeepsSlugChars(DropRun(s[1..]));
      DropRunKeepsSlugChars(s[1..]);
      SlugCharsConcat(['-'], Collapse(DropRun(s[1..])));
    }
  }

  /** A collapsed string passes through the substitution unchanged. */
  lemma {:induction false} CollapseFixesCollapsed(s: string)
    requires IsCollapsed(s)
    ensures Collapse(s) == s
    decreases |s|
  {
    if s != [] {
      assert IsCollapsed(s[1..]);
      CollapseFixesCollapsed(s[1..]);
      if !IsSlugChar(s[0]) {
        assert s[1..] != [] ==> IsSlugChar(s[1]);
        assert DropRun(s[1..]) == s[1..];
        assert s == ['-'] + s[1..];
      } else {
        assert s == [s[0]] + s[1..];
      }
    }
  }

  /** Leading dashes are dropped and nothing else: the result is a suffix not led by a dash. */
  lemma {:induction false} StripLeadingShape(s: string)
    ensures var r := StripLeading(s);
      |r| <= |s| && r == s[|s| - |r|..] && (r != [] ==> r[0] != '-')
      && forall i :: 0 <= i < |s| - |r| ==> s[i] == '-'
  {
    if s != [] && s[0] == '-' {
      StripLeadingShape(s[1..]);
      var r := StripLeading(s);
      assert s[1..][|s| - 1 - |r|..] == s[|s| - |r|..];
      assert forall i :: 1 <= i < |s| - |r| ==> s[i] == s[1..][i - 1];
    }
  }

  /** Trailing dashes are dropped and nothing else: the result is a prefix not ended by a dash. */
  lemma {:induction false} StripTrailingShape(s: string)
    ensures var r := StripTrailing(s);
      |r| <= |s| && r == s[..|r|] && (r != [] ==> r[|r| - 1] != '-')
      && forall i :: |r| <= i < |s| ==> s[i] == '-'
  {
    if s != [] && s[|s| - 1] == '-' {
      var init := s[..|s| - 1];
      StripTrailingShape(init);
      var r := StripTrailing(s);
      assert init[..|r|] == s[..|r|];
      assert forall i :: |r| <= i < |s| - 1 ==> s[i] == init[i];
    }
  }

  /** A contiguous piece of a collapsed string is still collapsed. */
  lemma SliceKeepsShape(s: string, i: int, j: int)
    requires 0 <= i <= j <= |s| && IsCollapsed(s)
    ensures IsCollapsed(s[i..j])
  {
    var p := s[i..j];
    forall m | 0 <= m < |p|
      ensures IsSlugChar(p[m]) || p[m] == '-'
    {
      assert p[m] == s[i + m];
    }
    forall m | 0 <= m < |p| - 1
      ensures !(p[m] == '-' && p[m + 1] == '-')
    {
      assert p[m] == s[i + m] && p[m + 1] == s[i + m + 1];
    }
  }

  /** Stripping a collapsed string gives a clean slug. */
  lemma StripCleans(s: string)
    requires IsCollapsed(s)
    ensures IsCleanSlug(Strip(s))
  {
    StripLeadingShape(s);
    var l := StripLeading(s);
    SliceKeepsShape(s, |s| - |l|, |s|);
    StripTrailingShape(l);
    var r := StripTrailing(l);
    SliceKeepsShape(l, 0, |r|);
    if r != [] {
      assert r[0] == l[0];
    }
  }

  /** A clean slug is left alone by stripping. */
  lemma StripFixesClean(s: string)
    requires IsCleanSlug(s)
    ensures Strip(s) == s
  {
  }

  /** `s[:n]` is a prefix of `s`, of length `min(n, |s|)` for non-negative `n`. */
  lemma HeadIsPrefix(s: string, n: int)
    ensures Head(s, n) <= s
    ensures 0 <= n ==> |Head(s, n)| == if n <= |s| then n else |s|
  {
  }

  lemma CleanIsClean(title: string)
    ensures IsCleanSlug(Clean(title))
  {
    CollapseShape(Lower(AsciiOnly(title)));
    StripCleans(Collapse(Lower(AsciiOnly(title))));
  }

  /** A prefix of a clean slug is collapsed and not led by a dash. */
  lemma PrefixOfClean(s: string, p: string)
    requires IsCleanSlug(s) && p <= s
    ensures IsCollapsed(p) && (p != [] ==> p[0] != '-')
  {
    SliceKeepsShape(s, 0, |p|);
    assert p == s[..|p|];
  }

  lemma FallbackIsClean()
    ensures IsCleanSlug(Fallback)
  {
  }

  /** The slug alphabet excludes the characters that matter in a path. */
  lemma NoSpecialChars(s: string)
    requires SlugAlphabet(s)
    ensures '_' !in s && '.' !in s && '/' !in s
  {
    forall i | 0 <= i < |s|
      ensures s[i] != '_' && s[i] != '.' && s[i] != '/'
    {
      assert IsSlugChar(s[i]) || s[i] == '-';
    }
  }

  /** Lowercasing and substitution leave a collapsed string alone. */
  lemma PrepFixesCollapsed(s: string)
    requires IsCollapsed(s)
    ensures Collapse(Lower(AsciiOnly(s))) == s
  {
    AsciiOnlyKeepsAscii(s);
    var lowered := Lower(s);
    assert forall i :: 0 <= i < |s| ==> lowered[i] == s[i];
    assert lowered == s;
    CollapseFixesCollapsed(s);
  }

  /** A clean slug is a fixed point of the whole pipeline before truncation. */
  lemma CleanFixesSlugs(s: string)
    requires IsCleanSlug(s)
    ensures Clean(s) == s
  {
    PrepFixesCollapsed(s);
    StripFixesClean(s);
  }

  // ---------------------------------------------------------------------------
  // `slugify`'s length, fallback and idempotence.

  /** Nothing left of the title gives exactly the fallback, whatever `max_len` is (even below 8). */
  lemma SlugifyFallback(title: string, maxLen: int)
    requires Clean(title) == []
    ensures Slugify(title, maxLen) == Fallback
  {
    assert Head(Clean(title), maxLen) == [];
  }

  /** A title whose slug fits is not truncated. */
  lemma SlugifyFits(title: string, maxLen: int)
    requires 0 < |Clean(title)| <= maxLen
    ensures Slugify(title, maxLen) == Clean(title)
  {
    assert Head(Clean(title), maxLen) == Clean(title);
  }

  /** A title whose slug is too long is cut to exactly `max_len` characters. */
  lemma SlugifyTruncates(title: string, maxLen: int)
    requires 0 < maxLen < |Clean(title)|
    ensures Slugify(title, maxLen) == Clean(title)[..maxLen]
    ensures |Slugify(title, maxLen)| == maxLen
  {
    assert Head(Clean(title), maxLen) == Clean(title)[..maxLen];
  }

  /**
   * `slugify` is idempotent for a fixed non-negative `max_len`, provided its result
   * does not end in a dash and is not a fallback longer than `max_len`.
   */
  lemma SlugifyIdempotent(title: string, maxLen: int)
    requires 0 <= maxLen
    requires Slugify(title, maxLen)[|Slugify(title, maxLen)| - 1] != '-'
    requires Slugify(title, maxLen) == Fallback ==> maxLen == 0 || maxLen >= |Fallback|
    ensures Slugify(Slugify(title, maxLen), maxLen) == Slugify(title, maxLen)
  {
    var r := Slugify(title, maxLen);
    var head := Head(Clean(title), maxLen);
    if head != [] {
      SlugifyIsHead(title, maxLen);
      SlugifyOfCleanSlug(r, maxLen);
    } else if maxLen == 0 {
      SlugifyEmptyHead(title, 0);
      SlugifyEmptyHead(Fallback, 0);
    } else {
      SlugifyEmptyHead(title, maxLen);
      FallbackIsClean();
      SlugifyOfCleanSlug(Fallback, maxLen);
    }
  }

  /** An empty truncation gives the fallback. */
  lemma SlugifyEmptyHead(title: string, maxLen: int)
    requires Head(Clean(title), maxLen) == []
    ensures Slugify(title, maxLen) == Fallback
  {
  }

  /** A non-empty truncation is what `slugify` returns, and it fits. */
  lemma SlugifyIsHead(title: string, maxLen: int)
    requires 0 <= maxLen && Head(Clean(title), maxLen) != []
    ensures Slugify(title, maxLen) == Head(Clean(title), maxLen)
    ensures |Slugify(title, maxLen)| <= maxLen
  {
    HeadIsPrefix(Clean(title), maxLen);
  }

  /** A clean slug within `max_len` is returned unchanged. */
  lemma SlugifyOfCleanSlug(s: string, maxLen: int)
    requires IsCleanSlug(s) && s != [] && |s| <= maxLen
    ensures Slugify(s, maxLen) == s
  {
    CleanFixesSlugs(s);
    assert Head(Clean(s), maxLen) == s;
  }

  /**
   * Truncation can stop on a separator: the slug then ends in a dash, and a second
   * pass strips it, so the slug is not a fixed point.
   */
  lemma TruncationLeavesDash()
    ensures Slugify("abc-def", 4) == "abc-"
    ensures Slugify("abc-", 4) == "abc"
  {
    FirstPass();
    SecondPass();
  }

  lemma FirstPass()
    ensures Slugify("abc-def", 4) == "abc-"
  {
    assert IsCleanSlug("abc-def");
    CleanFixesSlugs("abc-def");
    assert Head(Clean("abc-def"), 4) == "abc-";
  }

  lemma SecondPass()
    ensures Slugify("abc-", 4) == "abc"
  {
    var s := "abc-";
    assert IsCollapsed(s);
    PrepFixesCollapsed(s);
    assert StripLeading(s) == s;
    assert StripTrailing(s) == "abc";
    assert Clean(s) == "abc";
    assert Head(Clean(s), 4) == "abc";
  }

  /** The fallback is longer than a small `max_len`, so a second pass truncates it. */
  lemma ShortFallbackShrinks()
    ensures Slugify("", 4) == "untitled"
    ensures Slugify("untitled", 4) == "unti"
  {
    EmptyTitle();
    FallbackTruncated();
  }

  lemma EmptyTitle()
    ensures Slugify("", 4) == Fallback
  {
    assert Clean("") == "";
  }

  lemma FallbackTruncated()
    ensures Slugify(Fallback, 4) == "unti"
  {
    FallbackIsClean();
    CleanFixesSlugs(Fallback);
    assert Head(Clean(Fallback), 4) == "unti";
  }
}
