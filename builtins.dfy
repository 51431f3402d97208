/** The Python built-ins the pipeline leans on: `str.isspace`, `str.split()`,
    `str.split(sep)`, `str.strip()`, `sep.join(...)` and the slice `xs[:k]`.
    Each is modelled on code points (`char`), with the characters Python's
    `str.isspace` accepts as the whitespace set. */
module Builtins {

  /** Python's `str.isspace` on one code point. */
  predicate IsSpace(c: char) {
    || ('\t' <= c <= '\r')
    || ('\U{1C}' <= c <= ' ')
    || c == '\U{85}' || c == '\U{A0}' || c == '\U{1680}'
    || ('\U{2000}' <= c <= '\U{200A}')
    || c == '\U{2028}' || c == '\U{2029}' || c == '\U{202F}' || c == '\U{205F}' || c == '\U{3000}'
  }

  predicate AllSpaces(s: string) {
    forall i :: 0 <= i < |s| ==> IsSpace(s[i])
  }

  predicate NoSpaces(s: string) {
    forall i :: 0 <= i < |s| ==> !IsSpace(s[i])
  }

  predicate Distinct<T(==)>(xs: seq<T>) {
    forall i, j :: 0 <= i < j < |xs| ==> xs[i] != xs[j]
  }

  /** Number of whitespace characters at the front of `s`. */
  function LeadingSpaces(s: string): (n: nat)
    ensures n <= |s| && AllSpaces(s[..n])
    ensures n < |s| ==> !IsSpace(s[n])
  {
    if s == [] || !IsSpace(s[0]) then 0 else 1 + LeadingSpaces(s[1..])
  }

  /** Number of whitespace characters at the back of `s`. */
  function TrailingSpaces(s: string): (n: nat)
    ensures n <= |s| && AllSpaces(s[|s| - n..])
    ensures n < |s| ==> !IsSpace(s[|s| - 1 - n])
  {
    if s == [] || !IsSpace(s[|s| - 1]) then 0 else 1 + TrailingSpaces(s[..|s| - 1])
  }

  /** Number of non-whitespace characters at the front of `s`. */
  function WordLength(s: string): (n: nat)
    ensures n <= |s| && NoSpaces(s[..n])
    ensures n < |s| ==> IsSpace(s[n])
  {
    if s == [] || IsSpace(s[0]) then 0 else 1 + WordLength(s[1..])
  }

  /** `s.split()`: the maximal runs of non-whitespace characters, left to right. */
  function SplitWhitespace(s: string): (words: seq<string>)
    ensures forall i :: 0 <= i < |words| ==> words[i] != [] && NoSpaces(words[i])
    decreases |s|
  {
    var a := LeadingSpaces(s);
    if a == |s| then []
    else
      var t := s[a..];
      var n := WordLength(t);
      [t[..n]] + SplitWhitespace(t[n..])
  }

  /** `s.strip()`: `s` without its leading and trailing whitespace. */
  function Strip(s: string): (r: string)
    ensures r == [] || (!IsSpace(r[0]) && !IsSpace(r[|r| - 1]))
    ensures var a := LeadingSpaces(s);
      && a + |r| <= |s| && r == s[a..a + |r|]
      && AllSpaces(s[..a]) && AllSpaces(s[a + |r|..])
  {
    var a := LeadingSpaces(s);
    var b := TrailingSpaces(s[a..]);
    assert a < |s| ==> b < |s| - a;
    s[a..|s| - b]
  }

  /** Index of the first `c` in `s`, or `|s|` when there is none. */
  function IndexOf(s: string, c: char): (i: nat)
    ensures i <= |s| && (i < |s| ==> s[i] == c)
    ensures forall j :: 0 <= j < i ==> s[j] != c
  {
    if s == [] then 0 else if s[0] == c then 0 else 1 + IndexOf(s[1..], c)
  }

  /** `s.split(sep)` for a one-character separator: the pieces between the
      separators, empty ones included, so there is always one more piece than
      there are separators. */
  function SplitOn(s: string, sep: char): (pieces: seq<string>)
    ensures |pieces| >= 1
    ensures forall i :: 0 <= i < |pieces| ==> sep !in pieces[i]
    decreases |s|
  {
    var i := IndexOf(s, sep);
    if i == |s| then [s] else [s[..i]] + SplitOn(s[i + 1..], sep)
  }

  /** `sep.join(xs)`. */
  function Join(xs: seq<string>, sep: string): string
  {
    if xs == [] then [] else if |xs| == 1 then xs[0] else xs[0] + sep + Join(xs[1..], sep)
  }

  /** The slice `xs[:k]`: for `k >= 0` the first `k` elements (all of them when
      there are fewer); for negative `k` everything except the last `-k`. */
  function Prefix<T>(xs: seq<T>, k: int): (r: seq<T>)
    ensures r <= xs
    ensures k >= 0 ==> |r| == if k <= |xs| then k else |xs|
    ensures k < 0 ==> |r| == if |xs| + k >= 0 then |xs| + k else 0
  {
    if k >= 0 then xs[..if k <= |xs| then k else |xs|]
    else xs[..if |xs| + k >= 0 then |xs| + k else 0]
  }

  /** Concatenation is associative. */
  lemma AppendAssoc<T>(a: seq<T>, b: seq<T>, c: seq<T>)
    ensures (a + b) + c == a + (b + c)
  {
  }

  /** Joining the pieces of a split with the separator gives back the string. */
  lemma {:induction false} JoinSplitOn(s: string, sep: char)
    ensures Join(SplitOn(s, sep), [sep]) == s
    decreases |s|
  {
    var i := IndexOf(s, sep);
    if i < |s| {
      var rest := SplitOn(s[i + 1..], sep);
      JoinSplitOn(s[i + 1..], sep);
      JoinCons(s[..i], rest, [sep]);
      SplitAround(s, i);
    }
  }

  lemma JoinCons(x: string, rest: seq<string>, sep: string)
    requires rest != []
    ensures Join([x] + rest, sep) == x + sep + Join(rest, sep)
  {
    assert ([x] + rest)[1..] == rest;
  }

  lemma SplitAround<T>(s: seq<T>, i: nat)
    requires i < |s|
    ensures s == s[..i] + [s[i]] + s[i + 1..]
  {
  }

  /** Splitting a join whose parts are free of the separator recovers the parts. */
  lemma {:induction false} SplitOnJoin(xs: seq<string>, sep: char)
    requires |xs| >= 1
    requires forall i :: 0 <= i < |xs| ==> sep !in xs[i]
    ensures SplitOn(Join(xs, [sep]), sep) == xs
  {
    if |xs| > 1 {
      var tail := Join(xs[1..], [sep]);
      var s := xs[0] + [sep] + tail;
      assert Join(xs, [sep]) == s;
      assert s[|xs[0]|] == sep;
      assert forall j :: 0 <= j < |xs[0]| ==> s[j] == xs[0][j];
      var i := IndexOf(s, sep);
      assert i == |xs[0]|;
      assert s[..i] == xs[0];
      assert s[i + 1..] == tail;
      SplitOnJoin(xs[1..], sep);
    } else {
      var i := IndexOf(xs[0], sep);
      assert i == |xs[0]|;
    }
  }

  /** Leading whitespace contributes nothing to `split()`. */
  lemma {:induction false} SplitSkipsSpaces(g: string, x: string)
    requires AllSpaces(g)
    ensures SplitWhitespace(g + x) == SplitWhitespace(x)
  {
    LeadingSpacesAppend(g, x);
    var a := LeadingSpaces(x);
    assert (g + x)[|g| + a..] == x[a..];
  }

  lemma {:induction false} LeadingSpacesAppend(g: string, x: string)
    requires AllSpaces(g)
    ensures LeadingSpaces(g + x) == |g| + LeadingSpaces(x)
  {
    if g != [] {
      assert (g + x)[1..] == g[1..] + x;
      LeadingSpacesAppend(g[1..], x);
    } else {
      assert g + x == x;
    }
  }

  lemma {:induction false} WordLengthAppend(w: string, y: string)
    requires NoSpaces(w)
    requires y == [] || IsSpace(y[0])
    ensures WordLength(w + y) == |w|
  {
    if w != [] {
      assert (w + y)[1..] == w[1..] + y;
      WordLengthAppend(w[1..], y);
    } else {
      assert w + y == y;
    }
  }

  /** A run of non-whitespace followed by whitespace (or the end) is the first
      word `split()` returns. */
  lemma {:induction false} SplitTakesWord(w: string, y: string)
    requires w != [] && NoSpaces(w)
    requires y == [] || IsSpace(y[0])
    ensures SplitWhitespace(w + y) == [w] + SplitWhitespace(y)
  {
    var s := w + y;
    assert !IsSpace(s[0]);
    assert LeadingSpaces(s) == 0;
    WordLengthAppend(w, y);
    assert s[0..] == s;
    assert s[..|w|] == w;
    assert s[|w|..] == y;
  }
}
