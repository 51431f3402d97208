/** The tokenizer `clean`: lowercase the text, turn every character outside
    `a`..`z` into a space, and split on whitespace. */
module Tokenizer {
  import opened Builtins

  /** The token alphabet. */
  predicate IsLetter(c: char) {
    'a' <= c <= 'z'
  }

  /** `str.lower` on one character, for the ASCII capitals. */
  function LowerChar(c: char): char {
    if 'A' <= c <= 'Z' then (c as int + 32) as char else c
  }

  function Lower(s: string): string {
    seq(|s|, i requires 0 <= i < |s| => LowerChar(s[i]))
  }

  /** `re.sub(r"[^a-z]", " ", s)`. */
  function ReplaceNonLetters(s: string): string {
    seq(|s|, i requires 0 <= i < |s| => if IsLetter(s[i]) then s[i] else ' ')
  }

  /** The comprehension `[t for t in tokens if t]`. */
  function DropEmpty(tokens: seq<string>): seq<string> {
    if tokens == [] then []
    else (if tokens[0] != [] then [tokens[0]] else []) + DropEmpty(tokens[1..])
  }

  /** `clean(text)`. */
  function Clean(text: string): seq<string> {
    var lowered := Lower(text);
    var spaced := ReplaceNonLetters(lowered);
    DropEmpty(SplitWhitespace(spaced))
  }

  /** What `Clean` does after lowercasing. */
  function Runs(s: string): seq<string> {
    DropEmpty(SplitWhitespace(ReplaceNonLetters(s)))
  }

  /** A token: a non-empty string over `a`..`z`. */
  predicate IsWord(t: string) {
    t != [] && forall i :: 0 <= i < |t| ==> IsLetter(t[i])
  }

  /** A stretch of text without any letter of the alphabet. */
  predicate IsGap(g: string) {
    forall i :: 0 <= i < |g| ==> !IsLetter(g[i])
  }

  /** gaps[0] + words[0] + gaps[1] + ... + words[n-1] + gaps[n]. */
  function Weave(gaps: seq<string>, words: seq<string>): string
    requires |gaps| == |words| + 1
    decreases |words|
  {
    if words == [] then gaps[0] else gaps[0] + words[0] + Weave(gaps[1..], words[1..])
  }

  /** `s` is cut into maximal runs of letters `words`, separated by `gaps`:
      the gaps hold no letter, and those between two words are not empty (the
      first and the last may be). The words are then exactly the maximal runs
      of letters of `s`, left to right. */
  ghost predicate IsRunSplit(s: string, gaps: seq<string>, words: seq<string>) {
    && |gaps| == |words| + 1
    && (forall i :: 0 <= i < |gaps| ==> IsGap(gaps[i]))
    && (forall i :: 0 < i < |words| ==> gaps[i] != [])
    && (forall i :: 0 <= i < |words| ==> IsWord(words[i]))
    && s == Weave(gaps, words)
  }

  lemma {:induction false} ReplaceAppend(a: string, b: string)
    ensures ReplaceNonLetters(a + b) == ReplaceNonLetters(a) + ReplaceNonLetters(b)
  {
    assert forall i :: 0 <= i < |a| ==> (a + b)[i] == a[i];
    assert forall i :: |a| <= i < |a| + |b| ==> (a + b)[i] == b[i - |a|];
  }

  /** The words of an `IsRunSplit` start the text unless their leading gap is non-empty. */
  lemma WeaveStart(gaps: seq<string>, words: seq<string>)
    requires |gaps| == |words| + 1 && words != [] && words[0] != []
    ensures Weave(gaps, words) != []
    ensures Weave(gaps, words)[0] == if gaps[0] != [] then gaps[0][0] else words[0][0]
  {
  }

  lemma SliceThree(s: string, a: nat, b: nat)
    requires a <= b <= |s|
    ensures s == s[..a] + s[a..b] + s[b..]
  {
    assert s[..a] + s[a..b] == s[..b];
  }

  /** After `ReplaceNonLetters`, whitespace marks exactly the non-letters. */
  lemma ReplacedSpace(s: string, i: nat)
    requires i < |s|
    ensures IsSpace(ReplaceNonLetters(s)[i]) <==> !IsLetter(s[i])
    ensures IsLetter(s[i]) ==> ReplaceNonLetters(s)[i] == s[i]
  {
  }

  lemma ReplaceGap(g: string)
    requires IsGap(g)
    ensures AllSpaces(ReplaceNonLetters(g))
  {
  }

  lemma ReplaceWord(w: string)
    requires IsWord(w)
    ensures ReplaceNonLetters(w) == w && NoSpaces(w)
  {
  }

  /** The first maximal run of letters of `s`, when there is one: `s` is the
      gap `s[..a]`, then the word `s[a..b]`, then a rest that starts with a
      non-letter, and `Runs` returns the word followed by the runs of the rest. */
  lemma {:induction false} FirstRun(s: string) returns (a: nat, b: nat)
    ensures a <= |s|
    ensures a == |s| ==> Runs(s) == [] && IsGap(s)
    ensures a < |s| ==> a < b <= |s| && IsGap(s[..a]) && IsWord(s[a..b])
    ensures a < |s| ==> b < |s| ==> !IsLetter(s[b])
    ensures a < |s| ==> Runs(s) == [s[a..b]] + Runs(s[b..])
  {
    a := LeadingSpaces(ReplaceNonLetters(s));
    LeadingGap(s, a);
    if a == |s| {
      assert s[..a] == s;
      RunsOfGap(s);
      b := a;
    } else {
      var n := WordLength(ReplaceNonLetters(s)[a..]);
      LeadingWord(s, a, n);
      b := a + n;
      if b < |s| {
        ReplacedSpace(s[b..], 0);
      }
      SliceThree(s, a, b);
      RunsStep(s[..a], s[a..b], s[b..]);
    }
  }

  /** The characters `ReplaceNonLetters` turns into leading whitespace are non-letters. */
  lemma LeadingGap(s: string, a: nat)
    requires a == LeadingSpaces(ReplaceNonLetters(s))
    ensures a <= |s| && IsGap(s[..a])
  {
    var r := ReplaceNonLetters(s);
    forall i | 0 <= i < a ensures !IsLetter(s[i]) {
      assert IsSpace(r[..a][i]);
      ReplacedSpace(s, i);
    }
  }

  /** The first word `split()` finds after the leading gap is a run of letters,
      followed by a non-letter. */
  lemma LeadingWord(s: string, a: nat, n: nat)
    requires a == LeadingSpaces(ReplaceNonLetters(s)) && a < |s|
    requires n == WordLength(ReplaceNonLetters(s)[a..])
    ensures 0 < n && a + n <= |s| && IsWord(s[a..a + n])
    ensures a + n < |s| ==> !IsLetter(s[a + n])
  {
    var r := ReplaceNonLetters(s);
    var t := r[a..];
    ReplacedSpace(s, a);
    forall i | a <= i < a + n ensures IsLetter(s[i]) {
      assert r[i] == t[..n][i - a];
      ReplacedSpace(s, i);
    }
    if a + n < |s| {
      assert r[a + n] == t[n];
      ReplacedSpace(s, a + n);
    }
  }

  /** Every text can be cut into its maximal runs of letters, and the runs are
      what `Runs` returns. */
  lemma {:induction false} RunsAreMaximalRuns(s: string)
    ensures exists gaps :: IsRunSplit(s, gaps, Runs(s))
    decreases |s|
  {
    var a, b := FirstRun(s);
    if a == |s| {
      assert IsRunSplit(s, [s], Runs(s));
    } else {
      var rest := s[b..];
      RunsAreMaximalRuns(rest);
      var gaps' :| IsRunSplit(rest, gaps', Runs(rest));
      var words' := Runs(rest);
      if words' != [] && gaps'[0] == [] {
        WeaveStart(gaps', words');
        assert false;
      }
      AddFirstRun(s[..a], s[a..b], rest, gaps', words');
      SliceThree(s, a, b);
    }
  }

  lemma AddFirstRun(g: string, w: string, rest: string, gaps': seq<string>, words': seq<string>)
    requires IsGap(g) && IsWord(w)
    requires IsRunSplit(rest, gaps', words')
    requires words' != [] ==> gaps'[0] != []
    ensures IsRunSplit(g + w + rest, [g] + gaps', [w] + words')
  {
    var gaps := [g] + gaps';
    var words := [w] + words';
    assert gaps[1..] == gaps' && words[1..] == words';
  }

  /** Conversely, any cut of a text into maximal runs of letters is the one
      `Runs` returns. */
  lemma {:induction false} MaximalRunsAreRuns(s: string, gaps: seq<string>, words: seq<string>)
    requires IsRunSplit(s, gaps, words)
    ensures words == Runs(s)
    decreases |words|
  {
    if words == [] {
      NoRuns(s, gaps, words);
    } else {
      RunSplitStep(s, gaps, words);
      MaximalRunsAreRuns(Weave(gaps[1..], words[1..]), gaps[1..], words[1..]);
      assert words == [words[0]] + words[1..];
    }
  }

  /** A text without letters has no runs. */
  lemma RunsOfGap(g: string)
    requires IsGap(g)
    ensures Runs(g) == []
  {
    var rg := ReplaceNonLetters(g);
    ReplaceGap(g);
    SplitSkipsSpaces(rg, []);
    assert rg + [] == rg;
  }

  lemma NoRuns(s: string, gaps: seq<string>, words: seq<string>)
    requires IsRunSplit(s, gaps, words) && words == []
    ensures Runs(s) == []
  {
    RunsOfGap(s);
  }

  /** The first word of a run split is the first run, and the rest is a run split. */
  lemma RunSplitStep(s: string, gaps: seq<string>, words: seq<string>)
    requires IsRunSplit(s, gaps, words) && words != []
    ensures IsRunSplit(Weave(gaps[1..], words[1..]), gaps[1..], words[1..])
    ensures Runs(s) == [words[0]] + Runs(Weave(gaps[1..], words[1..]))
  {
    RestIsRunSplit(s, gaps, words);
    RunsStep(gaps[0], words[0], Weave(gaps[1..], words[1..]));
  }

  /** Past its first gap and word, a run split is a run split of the rest. */
  lemma RestIsRunSplit(s: string, gaps: seq<string>, words: seq<string>)
    requires IsRunSplit(s, gaps, words) && words != []
    ensures s == gaps[0] + words[0] + Weave(gaps[1..], words[1..])
    ensures IsGap(gaps[0]) && IsWord(words[0])
    ensures IsRunSplit(Weave(gaps[1..], words[1..]), gaps[1..], words[1..])
    ensures var rr := ReplaceNonLetters(Weave(gaps[1..], words[1..]));
      rr == [] || IsSpace(rr[0])
  {
    SeparatedTail(gaps, words);
  }

  /** A gap, then a word, then a rest that starts with a separator: the word
      is the first run, and the runs of the rest follow it. */
  lemma RunsStep(g: string, w: string, rest: string)
    requires IsGap(g) && IsWord(w)
    requires var rr := ReplaceNonLetters(rest); rr == [] || IsSpace(rr[0])
    ensures Runs(g + w + rest) == [w] + Runs(rest)
  {
    var rg := ReplaceNonLetters(g);
    var rr := ReplaceNonLetters(rest);
    ReplaceGap(g);
    ReplaceWord(w);
    ReplaceAppend(g, w + rest);
    ReplaceAppend(w, rest);
    AppendAssoc(g, w, rest);
    assert ReplaceNonLetters(g + w + rest) == rg + (w + rr);
    SplitSkipsSpaces(rg, w + rr);
    SplitTakesWord(w, rr);
    var tail := SplitWhitespace(rr);
    assert ([w] + tail)[1..] == tail;
  }

  /** What follows the first word of a run split starts with a separator. */
  lemma SeparatedTail(gaps: seq<string>, words: seq<string>)
    requires |gaps| == |words| + 1 && words != []
    requires forall i :: 0 <= i < |gaps| ==> IsGap(gaps[i])
    requires forall i :: 0 < i < |words| ==> gaps[i] != []
    requires forall i :: 0 <= i < |words| ==> IsWord(words[i])
    ensures var rr := ReplaceNonLetters(Weave(gaps[1..], words[1..]));
      rr == [] || IsSpace(rr[0])
  {
    var rest := Weave(gaps[1..], words[1..]);
    if rest != [] {
      if |words| > 1 {
        WeaveStart(gaps[1..], words[1..]);
        assert !IsLetter(rest[0]);
      } else {
        assert rest == gaps[1];
      }
      ReplacedSpace(rest, 0);
    }
  }

  /** The tokenizer's contract: every token is a non-empty string over
      `a`..`z`, and the tokens are exactly the maximal runs of letters of the
      lowercased text, in order; the empty text has no tokens. */
  lemma CleanTokens(text: string)
    ensures forall i :: 0 <= i < |Clean(text)| ==> IsWord(Clean(text)[i])
    ensures exists gaps :: IsRunSplit(Lower(text), gaps, Clean(text))
    ensures text == [] ==> Clean(text) == []
  {
    assert Clean(text) == Runs(Lower(text));
    RunsAreMaximalRuns(Lower(text));
  }

  /** ... and no other cut of the lowercased text into runs of letters exists. */
  lemma CleanIsUnique(text: string, gaps: seq<string>, words: seq<string>)
    requires IsRunSplit(Lower(text), gaps, words)
    ensures words == Clean(text)
  {
    MaximalRunsAreRuns(Lower(text), gaps, words);
  }

  /** Case is folded, and digits and punctuation only separate. */
  lemma CleanExample()
    ensures Clean("Orbit, 2 suns!") == ["orbit", "suns"]
  {
    LowerExample();
    WeaveExample();
    CleanIsUnique("Orbit, 2 suns!", ["", ", 2 ", "!"], ["orbit", "suns"]);
  }

  lemma LowerExample()
    ensures Lower("Orbit, 2 suns!") == "orbit, 2 suns!"
  {
  }

  lemma WeaveExample()
    ensures IsRunSplit("orbit, 2 suns!", ["", ", 2 ", "!"], ["orbit", "suns"])
  {
    var gaps := ["", ", 2 ", "!"];
    var words := ["orbit", "suns"];
    assert gaps[1..] == [", 2 ", "!"] && words[1..] == ["suns"];
    assert gaps[2..] == ["!"] && words[2..] == [];
    assert Weave(gaps[1..], words[1..]) == ", 2 suns!";
  }
}
