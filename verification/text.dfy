/** String helpers with Rust's meaning: `char::is_whitespace`, `str::trim`
    and `trim_matches`,
    `starts_with`, `replace('\\', "/")`, splitting on a separator predicate,
    and the lexicographic order of `String::cmp`. */
module Text {

  // ---------------------------------------------------------------------
  // Trimming by a character predicate (`str::trim_matches` and friends);
  // the proofs treat the predicate as unknown, which keeps them cheap.
  // ---------------------------------------------------------------------

  predicate All(s: string, p: char -> bool) {
    forall i :: 0 <= i < |s| ==> p(s[i])
  }

  /** `str::trim_start_matches`; `TrimStartMatchesSpec` says what it
      returns. */
  function TrimStartMatches(s: string, p: char -> bool): string {
    if s != [] && p(s[0]) then TrimStartMatches(s[1..], p) else s
  }

  /** `str::trim_end_matches`; `TrimEndMatchesSpec` says what it returns. */
  function TrimEndMatches(s: string, p: char -> bool): string {
    if s != [] && p(s[|s| - 1]) then TrimEndMatches(s[..|s| - 1], p) else s
  }

  /** Trimming the start drops the leading run of `p` and nothing else. */
  lemma {:induction false} TrimStartMatchesSpec(s: string, p: char -> bool)
    ensures var r := TrimStartMatches(s, p);
            && |r| <= |s| && r == s[|s| - |r|..]
            && All(s[..|s| - |r|], p)
            && (r != [] ==> !p(r[0]))
  {
    if s != [] && p(s[0]) {
      TrimStartMatchesSpec(s[1..], p);
    }
  }

  /** Trimming the end drops the trailing run of `p` and nothing else. */
  lemma {:induction false} TrimEndMatchesSpec(s: string, p: char -> bool)
    ensures var r := TrimEndMatches(s, p);
            && |r| <= |s| && r == s[..|r|]
            && All(s[|r|..], p)
            && (r != [] ==> !p(r[|r| - 1]))
  {
    if s != [] && p(s[|s| - 1]) {
      TrimEndMatchesSpec(s[..|s| - 1], p);
      var r := TrimEndMatches(s, p);
      assert s[|r|..] == s[..|s| - 1][|r|..] + [s[|s| - 1]];
    }
  }

  /** `str::trim_matches`: `s` with both runs cut off. It is empty exactly
      when every character of `s` satisfies `p`. */
  function TrimMatches(s: string, p: char -> bool): (r: string)
    ensures exists a, b :: s == a + r + b && All(a, p) && All(b, p)
    ensures r == [] <==> All(s, p)
    ensures r != [] ==> !p(r[0]) && !p(r[|r| - 1])
  {
    var r := TrimEndMatches(TrimStartMatches(s, p), p);
    TrimMatchesShape(s, p);
    TrimMatchesEmpty(s, p);
    r
  }

  lemma TrimMatchesShape(s: string, p: char -> bool)
    ensures var t := TrimStartMatches(s, p);
            var r := TrimEndMatches(t, p);
            && (exists a, b :: s == a + r + b && All(a, p) && All(b, p))
            && (r != [] ==> !p(r[0]) && !p(r[|r| - 1]))
  {
    var t := TrimStartMatches(s, p);
    TrimStartMatchesSpec(s, p);
    TrimEndMatchesSpec(t, p);
    Cut(s, t, TrimEndMatches(t, p), p);
  }

  /** The pieces of a start-then-end cut. */
  lemma Cut(s: string, t: string, r: string, p: char -> bool)
    requires |t| <= |s| && t == s[|s| - |t|..] && All(s[..|s| - |t|], p) && (t != [] ==> !p(t[0]))
    requires |r| <= |t| && r == t[..|r|] && All(t[|r|..], p) && (r != [] ==> !p(r[|r| - 1]))
    ensures exists a, b :: s == a + r + b && All(a, p) && All(b, p)
    ensures r != [] ==> !p(r[0]) && !p(r[|r| - 1])
  {
    var a := s[..|s| - |t|];
    var b := t[|r|..];
    Sandwich(s, t, r);
    assert s == a + r + b && All(a, p) && All(b, p);
    assert r != [] ==> r[0] == t[0];
  }

  lemma Sandwich<T>(s: seq<T>, t: seq<T>, r: seq<T>)
    requires |t| <= |s| && t == s[|s| - |t|..]
    requires |r| <= |t| && r == t[..|r|]
    ensures s == s[..|s| - |t|] + r + t[|r|..]
  {
    assert t == r + t[|r|..];
  }

  lemma TrimMatchesEmpty(s: string, p: char -> bool)
    ensures TrimEndMatches(TrimStartMatches(s, p), p) == [] <==> All(s, p)
  {
    var t := TrimStartMatches(s, p);
    TrimStartMatchesSpec(s, p);
    TrimEndMatchesSpec(t, p);
    if TrimEndMatches(t, p) == [] {
      assert t[0..] == t;
      AllSuffix(s, t, p);
    }
    if All(s, p) {
      AllTrimStart(s, p);
    }
  }

  lemma AllSuffix(s: string, t: string, p: char -> bool)
    requires |t| <= |s| && t == s[|s| - |t|..] && All(s[..|s| - |t|], p) && All(t, p)
    ensures All(s, p)
  {
    var n := |s| - |t|;
    forall i | 0 <= i < |s| ensures p(s[i]) {
      if i < n {
        assert s[..n][i] == s[i];
      } else {
        assert t[i - n] == s[i];
      }
    }
  }

  lemma AllConcat(a: string, b: string, p: char -> bool)
    requires All(a, p) && All(b, p)
    ensures All(a + b, p)
  {
    forall i | 0 <= i < |a + b| ensures p((a + b)[i]) {
      if i < |a| { assert (a + b)[i] == a[i]; } else { assert (a + b)[i] == b[i - |a|]; }
    }
  }

  lemma {:induction false} AllTrimStart(s: string, p: char -> bool)
    requires All(s, p)
    ensures TrimStartMatches(s, p) == []
    decreases |s|
  {
    if s != [] {
      assert All(s[1..], p) by {
        forall i | 0 <= i < |s[1..]| ensures p(s[1..][i]) {
          assert s[1..][i] == s[i + 1];
        }
      }
      AllTrimStart(s[1..], p);
    }
  }

  /** Whatever satisfies `p` on either side never changes the result. */
  lemma TrimMatchesPadded(w1: string, s: string, w2: string, p: char -> bool)
    requires All(w1, p) && All(w2, p)
    ensures TrimMatches(w1 + s + w2, p) == TrimMatches(s, p)
  {
    assert w1 + s + w2 == w1 + (s + w2);
    TrimStartPadded(w1, s + w2, p);
    if All(s, p) {
      AllConcat(s, w2, p);
      AllTrimStart(s + w2, p);
      AllTrimStart(s, p);
    } else {
      TrimStartAppend(s, w2, p);
      TrimEndPadded(TrimStartMatches(s, p), w2, p);
    }
  }

  lemma {:induction false} TrimStartPadded(w: string, s: string, p: char -> bool)
    requires All(w, p)
    ensures TrimStartMatches(w + s, p) == TrimStartMatches(s, p)
    decreases |w|
  {
    if w != [] {
      assert (w + s)[1..] == w[1..] + s;
      TrimStartPadded(w[1..], s, p);
    } else {
      assert w + s == s;
    }
  }

  lemma {:induction false} TrimEndPadded(s: string, w: string, p: char -> bool)
    requires All(w, p)
    ensures TrimEndMatches(s + w, p) == TrimEndMatches(s, p)
    decreases |w|
  {
    if w != [] {
      assert (s + w)[..|s + w| - 1] == s + w[..|w| - 1];
      TrimEndPadded(s, w[..|w| - 1], p);
    } else {
      assert s + w == s;
    }
  }

  lemma {:induction false} TrimStartAppend(s: string, w: string, p: char -> bool)
    requires !All(s, p)
    ensures TrimStartMatches(s + w, p) == TrimStartMatches(s, p) + w
    decreases |s|
  {
    assert s != [];
    if p(s[0]) {
      assert (s + w)[1..] == s[1..] + w;
      assert !All(s[1..], p) by {
        var i :| 0 <= i < |s| && !p(s[i]);
        assert s[1..][i - 1] == s[i];
      }
      TrimStartAppend(s[1..], w, p);
    }
  }

  /** Text whose first and last characters fail `p` is left as it is. */
  lemma TrimMatchesUnpadded(s: string, p: char -> bool)
    requires s != [] && !p(s[0]) && !p(s[|s| - 1])
    ensures TrimMatches(s, p) == s
  {
    assert TrimStartMatches(s, p) == s;
    assert TrimEndMatches(s, p) == s;
  }

  // ---------------------------------------------------------------------
  // Whitespace
  // ---------------------------------------------------------------------

  /** Rust's `char::is_whitespace`: the Unicode White_Space property. */
  predicate IsWhitespace(c: char) {
    || ('\U{0009}' <= c <= '\U{000D}')
    || c == ' '
    || c == '\U{0085}'
    || c == '\U{00A0}'
    || c == '\U{1680}'
    || ('\U{2000}' <= c <= '\U{200A}')
    || c == '\U{2028}'
    || c == '\U{2029}'
    || c == '\U{202F}'
    || c == '\U{205F}'
    || c == '\U{3000}'
  }

  predicate AllWhitespace(s: string) {
    All(s, IsWhitespace)
  }

  /** `str::trim`: `s` with its leading and trailing whitespace cut off.
      It is empty exactly when `s` is all whitespace. */
  function Trim(s: string): (r: string)
    ensures exists a, b :: s == a + r + b && AllWhitespace(a) && AllWhitespace(b)
    ensures r == [] <==> AllWhitespace(s)
    ensures r != [] ==> !IsWhitespace(r[0]) && !IsWhitespace(r[|r| - 1])
  {
    var r := TrimMatches(s, IsWhitespace);
    PaddedByWhitespace(s, r);
    r
  }

  lemma PaddedByWhitespace(s: string, r: string)
    requires exists a, b :: s == a + r + b && All(a, IsWhitespace) && All(b, IsWhitespace)
    ensures exists a, b :: s == a + r + b && AllWhitespace(a) && AllWhitespace(b)
  {
    var a, b :| s == a + r + b && All(a, IsWhitespace) && All(b, IsWhitespace);
    assert AllWhitespace(a) && AllWhitespace(b);
  }

  /** `s.trim().is_empty()` */
  predicate IsBlank(s: string) {
    Trim(s) == []
  }

  /** Text that neither starts nor ends with whitespace is its own trim. */
  lemma TrimUnpadded(s: string)
    requires s != [] && !IsWhitespace(s[0]) && !IsWhitespace(s[|s| - 1])
    ensures Trim(s) == s
  {
    TrimMatchesUnpadded(s, IsWhitespace);
  }

  /** Whitespace on either side never changes the trimmed text. */
  lemma TrimIgnoresPadding(w1: string, s: string, w2: string)
    requires AllWhitespace(w1) && AllWhitespace(w2)
    ensures Trim(w1 + s + w2) == Trim(s)
  {
    TrimMatchesPadded(w1, s, w2, IsWhitespace);
  }

  /** `s.replace('\\', "/")` */
  function ReplaceBackslash(s: string): (r: string)
    ensures |r| == |s|
    ensures forall i :: 0 <= i < |s| ==> r[i] == (if s[i] == '\\' then '/' else s[i])
    ensures '\\' !in r
  {
    if s == [] then [] else [if s[0] == '\\' then '/' else s[0]] + ReplaceBackslash(s[1..])
  }

  /** Splits `s` at every character of `seps`, keeping empty pieces, as
      Rust's `str::split` with a character predicate does. */
  function SplitOn(s: string, seps: set<char>): (r: seq<string>)
    ensures |r| >= 1
    ensures forall i :: 0 <= i < |r| ==> forall c :: c in r[i] ==> c !in seps
  {
    if s == [] then [""]
    else
      var rest := SplitOn(s[1..], seps);
      if s[0] in seps then [""] + rest
      else
        assert forall c :: c in [s[0]] + rest[0] ==> c == s[0] || c in rest[0];
        [[s[0]] + rest[0]] + rest[1..]
  }

  /** Joins the pieces with `sep` between neighbours (`slice::join`). */
  function JoinWith(pieces: seq<string>, sep: char): string {
    if pieces == [] then ""
    else if |pieces| == 1 then pieces[0]
    else pieces[0] + [sep] + JoinWith(pieces[1..], sep)
  }

  /** Lexicographic order on code points, which is the order `String::cmp`
      gives (UTF-8 byte order agrees with code point order). */
  predicate StrLeq(a: string, b: string) {
    if a == [] then true
    else if b == [] then false
    else if a[0] != b[0] then a[0] < b[0]
    else StrLeq(a[1..], b[1..])
  }

  lemma {:induction false} StrLeqTotal(a: string, b: string)
    ensures StrLeq(a, b) || StrLeq(b, a)
    decreases |a|
  {
    if a != [] && b != [] && a[0] == b[0] {
      StrLeqTotal(a[1..], b[1..]);
    }
  }

  lemma {:induction false} StrLeqAntisymmetric(a: string, b: string)
    requires StrLeq(a, b) && StrLeq(b, a)
    ensures a == b
    decreases |a|
  {
    if a != [] {
      StrLeqAntisymmetric(a[1..], b[1..]);
      assert a == [a[0]] + a[1..] && b == [b[0]] + b[1..];
    }
  }

  lemma {:induction false} StrLeqTransitive(a: string, b: string, c: string)
    requires StrLeq(a, b) && StrLeq(b, c)
    ensures StrLeq(a, c)
    decreases |a|
  {
    if a != [] && b != [] && c != [] && a[0] == b[0] && b[0] == c[0] {
      StrLeqTransitive(a[1..], b[1..], c[1..]);
    }
  }
}
