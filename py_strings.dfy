/**
 * The parts of Python's `str` that the lexical features rely on:
 * `s.split()` (no argument), `s.split(sep)` for a one-character separator,
 * and `sep.join(parts)`.
 */
module PyStrings {

  /**
   * The characters Python 3's `str.split()` treats as whitespace: \t \n \v \f \r,
   * the information separators U+001C..U+001F, the space, U+0085, U+00A0 and
   * the Unicode space separators and line/paragraph separators.
   */
  predicate IsSpace(c: char) {
    var n := c as int;
    (9 <= n <= 13) || (28 <= n <= 32) || n == 0x85 || n == 0xA0 || n == 0x1680
    || (0x2000 <= n <= 0x200A) || n == 0x2028 || n == 0x2029 || n == 0x202F
    || n == 0x205F || n == 0x3000
  }

  /** On ASCII, the whitespace is tab, newline, vertical tab, form feed, carriage return, U+001C..U+001F and space. */
  lemma IsSpaceAscii(c: char)
    requires c as int < 128
    ensures IsSpace(c) <==> c in " \t\n\r\U{0B}\U{0C}\U{1C}\U{1D}\U{1E}\U{1F}"
  {
  }

  /** What `str.split()` can return as one piece: non-empty, no whitespace inside. */
  predicate IsToken(t: string) {
    |t| > 0 && forall i :: 0 <= i < |t| ==> !IsSpace(t[i])
  }

  /** Length of the run of non-whitespace characters at the front of `s`. */
  function TokenLength(s: string): (n: nat)
    ensures n <= |s|
    ensures forall i :: 0 <= i < n ==> !IsSpace(s[i])
    ensures n < |s| ==> IsSpace(s[n])
  {
    if s == [] || IsSpace(s[0]) then 0 else 1 + TokenLength(s[1..])
  }

  /**
   * `s.split()`: maximal runs of non-whitespace, in order; runs of whitespace
   * separate, and leading or trailing whitespace yields no empty piece.
   */
  function Split(s: string): (r: seq<string>)
    ensures forall k :: 0 <= k < |r| ==> IsToken(r[k])
    decreases |s|
  {
    if s == [] then []
    else if IsSpace(s[0]) then Split(s[1..])
    else
      var n := TokenLength(s);
      [s[..n]] + Split(s[n..])
  }

  /** `[sep].join(parts)`. */
  function Join(parts: seq<string>, sep: char): string {
    if |parts| == 0 then []
    else if |parts| == 1 then parts[0]
    else parts[0] + [sep] + Join(parts[1..], sep)
  }

  /**
   * `s.split(sep)` for a single-character separator: the pieces between
   * occurrences of `sep`, empty pieces kept, so there is always at least one.
   */
  function SplitOn(s: string, sep: char): (r: seq<string>)
    ensures |r| >= 1
    ensures forall k :: 0 <= k < |r| ==> sep !in r[k]
  {
    if s == [] then [[]]
    else
      var rest := SplitOn(s[1..], sep);
      if s[0] == sep then [[]] + rest
      else [[s[0]] + rest[0]] + rest[1..]
  }

  // ---------------------------------------------------------------------------
  // str.split()

  /** Splitting yields nothing exactly when the string is all whitespace (or empty). */
  lemma {:induction false} SplitEmptyIff(s: string)
    ensures Split(s) == [] <==> forall i :: 0 <= i < |s| ==> IsSpace(s[i])
    decreases |s|
  {
    if s != [] {
      if IsSpace(s[0]) {
        SplitEmptyIff(s[1..]);
        assert forall i :: 1 <= i < |s| ==> s[i] == s[1..][i - 1];
      }
    }
  }

  /** A single token splits into itself. */
  lemma SplitToken(t: string)
    requires IsToken(t)
    ensures Split(t) == [t]
  {
    var n := TokenLength(t);
    assert n == |t|;
    assert t[..n] == t && t[n..] == [];
  }

  lemma TokenLengthBeforeSpace(p: string, c: char, q: string)
    requires IsSpace(c)
    ensures TokenLength(p + [c] + q) == TokenLength(p)
  {
    var s := p + [c] + q;
    var m := TokenLength(p);
    var n := TokenLength(s);
    assert forall i :: 0 <= i < |p| ==> s[i] == p[i];
    assert s[|p|] == c;
  }

  /** One whitespace character between two strings separates their tokens. */
  lemma {:induction false} SplitAppend(p: string, c: char, q: string)
    requires IsSpace(c)
    ensures Split(p + [c] + q) == Split(p) + Split(q)
    decreases |p|
  {
    var s := p + [c] + q;
    if p == [] {
      assert s[1..] == q;
    } else if IsSpace(p[0]) {
      assert s[1..] == p[1..] + [c] + q;
      SplitAppend(p[1..], c, q);
    } else {
      var n := TokenLength(p);
      TokenLengthBeforeSpace(p, c, q);
      assert s[..n] == p[..n];
      assert s[n..] == p[n..] + [c] + q;
      SplitAppend(p[n..], c, q);
    }
  }

  /** Leading whitespace, however much, is dropped. */
  lemma {:induction false} SplitSkipsSpace(w: string, q: string)
    requires forall i :: 0 <= i < |w| ==> IsSpace(w[i])
    ensures Split(w + q) == Split(q)
  {
    if w == [] {
      assert w + q == q;
    } else {
      assert (w + q)[1..] == w[1..] + q;
      SplitSkipsSpace(w[1..], q);
    }
  }

  /** A run of whitespace acts as a single separator. */
  lemma SplitRun(p: string, w: string, q: string)
    requires |w| > 0 && forall i :: 0 <= i < |w| ==> IsSpace(w[i])
    ensures Split(p + w + q) == Split(p) + Split(q)
  {
    var rest := w[1..];
    assert w == [w[0]] + rest;
    assert p + w + q == p + [w[0]] + (rest + q);
    assert forall i :: 0 <= i < |rest| ==> IsSpace(rest[i]) by {
      forall i | 0 <= i < |rest| ensures IsSpace(rest[i]) {
        assert rest[i] == w[i + 1];
      }
    }
    SplitAppend(p, w[0], rest + q);
    SplitSkipsSpace(rest, q);
  }

  /** Joining tokens with whitespace and splitting again gives the tokens back. */
  lemma {:induction false} SplitJoin(tokens: seq<string>, c: char)
    requires IsSpace(c)
    requires forall k :: 0 <= k < |tokens| ==> IsToken(tokens[k])
    ensures Split(Join(tokens, c)) == tokens
  {
    if |tokens| == 1 {
      SplitToken(tokens[0]);
    } else if |tokens| > 1 {
      SplitToken(tokens[0]);
      SplitAppend(tokens[0], c, Join(tokens[1..], c));
      SplitJoin(tokens[1..], c);
      assert [tokens[0]] + tokens[1..] == tokens;
    }
  }

  // ---------------------------------------------------------------------------
  // str.split(sep)

  /** There is one more piece than there are separators. */
  lemma {:induction false} SplitOnCount(s: string, sep: char)
    ensures |SplitOn(s, sep)| == multiset(s)[sep] + 1
  {
    if s != [] {
      SplitOnCount(s[1..], sep);
      assert s == [s[0]] + s[1..];
    }
  }

  /** Joining the pieces with the separator restores the string. */
  lemma {:induction false} JoinSplitOn(s: string, sep: char)
    ensures Join(SplitOn(s, sep), sep) == s
  {
    if s != [] {
      var rest := SplitOn(s[1..], sep);
      JoinSplitOn(s[1..], sep);
      if s[0] == sep {
        assert ([[]] + rest)[1..] == rest;
      } else {
        var r := [[s[0]] + rest[0]] + rest[1..];
        assert r[1..] == rest[1..];
        if |rest| > 1 {
          assert Join(rest, sep) == rest[0] + [sep] + Join(rest[1..], sep);
        }
      }
    }
  }

  /** A separator between two strings separates their pieces. */
  lemma {:induction false} SplitOnAppend(p: string, sep: char, q: string)
    ensures SplitOn(p + [sep] + q, sep) == SplitOn(p, sep) + SplitOn(q, sep)
  {
    var s := p + [sep] + q;
    if p == [] {
      assert s[1..] == q;
    } else {
      assert s[1..] == p[1..] + [sep] + q;
      SplitOnAppend(p[1..], sep, q);
    }
  }

  /** A string without the separator is one piece. */
  lemma {:induction false} SplitOnFree(t: string, sep: char)
    requires sep !in t
    ensures SplitOn(t, sep) == [t]
  {
    if t != [] {
      assert sep !in t[1..] by {
        assert forall i :: 0 <= i < |t[1..]| ==> t[1..][i] == t[i + 1];
      }
      SplitOnFree(t[1..], sep);
      assert [t[0]] + t[1..] == t;
    }
  }

  /** Splitting separator-free pieces joined by the separator gives the pieces back. */
  lemma {:induction false} SplitOnJoin(parts: seq<string>, sep: char)
    requires |parts| >= 1
    requires forall k :: 0 <= k < |parts| ==> sep !in parts[k]
    ensures SplitOn(Join(parts, sep), sep) == parts
  {
    SplitOnFree(parts[0], sep);
    if |parts| > 1 {
      SplitOnAppend(parts[0], sep, Join(parts[1..], sep));
      SplitOnJoin(parts[1..], sep);
      assert [parts[0]] + parts[1..] == parts;
    }
  }
}
