/** String primitives the scraper relies on: ASCII `str.lower`, the substring test `k in t`, and `str.split(sep)`. */
module Text {

  /** `str.lower` on one character, for the ASCII range: 'A'..'Z' become 'a'..'z', the rest is kept. */
  function LowerChar(c: char): char {
    if 'A' <= c <= 'Z' then (c as int + 32) as char else c
  }

  /** `str.lower`, character by character. */
  function Lower(s: string): (r: string)
    ensures |r| == |s|
    ensures forall i :: 0 <= i < |s| ==> r[i] == LowerChar(s[i])
  {
    if s == [] then [] else [LowerChar(s[0])] + Lower(s[1..])
  }

  /** Lowering twice is lowering once. */
  lemma LowerIdempotent(s: string)
    ensures Lower(Lower(s)) == Lower(s)
  {
    var once := Lower(s);
    var twice := Lower(once);
    assert |twice| == |once|;
    forall i | 0 <= i < |once|
      ensures twice[i] == once[i]
    {
      assert once[i] == LowerChar(s[i]);
    }
  }

  /** Python's `k in t` for strings: `k` is a contiguous block of `t`. */
  ghost predicate Occurs(k: string, t: string) {
    exists i :: BlockAt(k, t, i)
  }

  /** `k` sits in `t` starting at position `i`. */
  ghost predicate BlockAt(k: string, t: string, i: int) {
    0 <= i <= |t| - |k| && t[i..i + |k|] == k
  }

  /** The substring test, computed by trying every start position. */
  function Contains(t: string, k: string): bool
    decreases |t|
  {
    k <= t || (t != [] && Contains(t[1..], k))
  }

  /** `Contains` decides `Occurs`. */
  lemma {:induction false} ContainsIsOccurs(t: string, k: string)
    ensures Contains(t, k) <==> Occurs(k, t)
    decreases |t|
  {
    if t == [] {
      if k == [] {
        assert BlockAt(k, t, 0);
      }
      if Occurs(k, t) {
        var i :| BlockAt(k, t, i);
        assert |k| == 0;
      }
    } else {
      ContainsIsOccurs(t[1..], k);
      if k <= t {
        assert BlockAt(k, t, 0);
      }
      if Occurs(k, t[1..]) {
        var i :| BlockAt(k, t[1..], i);
        assert t[i + 1..i + 1 + |k|] == t[1..][i..i + |k|];
        assert BlockAt(k, t, i + 1);
      }
      if Occurs(k, t) {
        var i :| BlockAt(k, t, i);
        if i > 0 {
          assert t[1..][i - 1..i - 1 + |k|] == t[i..i + |k|];
          assert BlockAt(k, t[1..], i - 1);
        }
      }
    }
  }

  /** A block of `t` stays a block when text is added on either side. */
  lemma OccursInContext(k: string, a: string, t: string, b: string)
    requires Occurs(k, t)
    ensures Occurs(k, a + t + b)
  {
    var i :| BlockAt(k, t, i);
    var w := a + t + b;
    assert w[|a| + i..|a| + i + |k|] == t[i..i + |k|];
    assert BlockAt(k, w, |a| + i);
  }

  /** Lowering distributes over concatenation. */
  lemma LowerConcat(a: string, b: string)
    ensures Lower(a + b) == Lower(a) + Lower(b)
  {
    var l := Lower(a + b);
    var r := Lower(a) + Lower(b);
    assert |l| == |r|;
    forall i | 0 <= i < |l|
      ensures l[i] == r[i]
    {
      if i < |a| { assert (a + b)[i] == a[i]; } else { assert (a + b)[i] == b[i - |a|]; }
    }
  }

  /**
   * `s.split(sep)` for a one-character separator: the pieces between separators,
   * in order. There is always at least one piece, and two separators in a row
   * give an empty piece.
   */
  function Split(s: string, sep: char): (parts: seq<string>)
    ensures |parts| >= 1
  {
    if s == [] then [[]]
    else if s[0] == sep then [[]] + Split(s[1..], sep)
    else
      var rest := Split(s[1..], sep);
      [[s[0]] + rest[0]] + rest[1..]
  }

  /** No piece contains the separator. */
  lemma {:induction false} SplitPiecesLackSep(s: string, sep: char)
    ensures forall i :: 0 <= i < |Split(s, sep)| ==> sep !in Split(s, sep)[i]
  {
    if s != [] {
      SplitPiecesLackSep(s[1..], sep);
      var rest := Split(s[1..], sep);
      if s[0] != sep {
        var parts := Split(s, sep);
        assert forall i :: 1 <= i < |parts| ==> parts[i] == rest[i];
      }
    }
  }

  /** A string without the separator is one piece. */
  lemma {:induction false} SplitWithout(s: string, sep: char)
    requires sep !in s
    ensures Split(s, sep) == [s]
  {
    if s != [] {
      assert sep !in s[1..] by {
        forall i | 0 <= i < |s[1..]| ensures s[1..][i] != sep { assert s[1..][i] == s[i + 1]; }
      }
      SplitWithout(s[1..], sep);
      assert s == [s[0]] + s[1..];
    }
  }

  /** Splitting at a separator splits the pieces: those of `a`, then those of `b`. */
  lemma {:induction false} SplitAt(a: string, b: string, sep: char)
    ensures Split(a + [sep] + b, sep) == Split(a, sep) + Split(b, sep)
  {
    if a == [] {
      assert a + [sep] + b == [sep] + b;
      SplitFront(sep, b, sep);
    } else {
      var t := a[1..] + [sep] + b;
      assert a + [sep] + b == [a[0]] + t;
      assert a == [a[0]] + a[1..];
      SplitAt(a[1..], b, sep);
      SplitFront(a[0], t, sep);
      SplitFront(a[0], a[1..], sep);
    }
  }

  /** A separator in front adds an empty first piece; another character joins the first piece. */
  lemma SplitFront(c: char, s: string, sep: char)
    ensures c == sep ==> Split([c] + s, sep) == [[]] + Split(s, sep)
    ensures c != sep ==> Split([c] + s, sep) == [[c] + Split(s, sep)[0]] + Split(s, sep)[1..]
  {
    assert ([c] + s)[0] == c && ([c] + s)[1..] == s;
  }
}
