/** `generate_answer` and `rag_answer`: the rule-based answer built from the
    retrieved documents, and the pipeline that falls back to an apology when
    no retrieved document scores above zero. */
module Answer {
  import opened Builtins
  import opened Tokenizer
  import opened BagOfWords
  import opened Similarity
  import opened Retrieval

  const Header: string := "Here\U{2019}s a helpful explanation " + "based on what I found:\n"
  const Bullet: string := " - "
  const BulletSeparator: string := "\n - "
  const Rationale: string := "\n\nWhy these lines? Because they are most similar to your question using word-matching math (cosine similarity)."
  const SourcesHeading: string := "\n\nSources:\n"
  const SourceMark: string := " \U{2022} "
  const Fallback: string := "I couldn't find helpful information for "
    + "that question in my small library. "
    + "Try rephrasing or add more documents."

  /** A non-empty string that neither starts nor ends with whitespace. */
  predicate Trimmed(s: string) {
    s != [] && !IsSpace(s[0]) && !IsSpace(s[|s| - 1])
  }

  /** A fragment as `generate_answer` keeps it: trimmed and free of periods. */
  predicate IsFragment(s: string) {
    Trimmed(s) && '.' !in s
  }

  predicate AllFragments(ss: seq<string>) {
    forall i :: 0 <= i < |ss| ==> IsFragment(ss[i])
  }

  /** `[s.strip() for s in pieces if s.strip()]`. */
  function KeepStripped(pieces: seq<string>): (fs: seq<string>)
    ensures |fs| <= |pieces|
  {
    if pieces == [] then []
    else
      var t := Strip(pieces[0]);
      (if t != [] then [t] else []) + KeepStripped(pieces[1..])
  }

  /** Stripping pieces without periods, and dropping the empty ones, leaves
      fragments. */
  lemma {:induction false} KeepStrippedShape(pieces: seq<string>)
    requires forall i :: 0 <= i < |pieces| ==> '.' !in pieces[i]
    ensures AllFragments(KeepStripped(pieces))
  {
    if pieces != [] {
      var t := Strip(pieces[0]);
      StripKeepsOut(pieces[0], '.');
      KeepStrippedShape(pieces[1..]);
      AllFragmentsAppend(if t != [] then [t] else [], KeepStripped(pieces[1..]));
    }
  }

  /** `raw_sentences`: the text cut at every period, each piece stripped, the
      empty ones dropped. */
  function Fragments(text: string): seq<string> {
    KeepStripped(SplitOn(text, '.'))
  }

  /** `pick = raw_sentences[:2]`. */
  function Pick(text: string): seq<string> {
    Prefix(Fragments(text), 2)
  }

  /** Every fragment is trimmed, non-empty and free of periods. */
  lemma FragmentsShape(text: string)
    ensures AllFragments(Fragments(text))
  {
    KeepStrippedShape(SplitOn(text, '.'));
  }

  /** The pick is the first two fragments, or all of them when there are fewer. */
  lemma PickShape(text: string)
    ensures var p, fs := Pick(text), Fragments(text);
      p <= fs && |p| == if |fs| < 2 then |fs| else 2
  {
  }

  /** `sentences` after the loop: the picks of the documents, in ranked order. */
  function Sentences(td: seq<Scored>): seq<string> {
    if td == [] then []
    else Sentences(td[..|td| - 1]) + Pick(td[|td| - 1].doc.text)
  }

  /** `f"{doc['title']} (score={score:.2f})"`, with the number formatting
      given as `render`. */
  function Citation(x: Scored, render: Score -> string): string {
    x.doc.title + " (score=" + render(x.score) + ")"
  }

  /** `sources` after the loop: one citation per retrieved pair. */
  function Citations(td: seq<Scored>, render: Score -> string): seq<string> {
    seq(|td|, i requires 0 <= i < |td| => Citation(td[i], render))
  }

  /** `f" • {src}" for src in sources`. */
  function Marked(srcs: seq<string>): seq<string> {
    seq(|srcs|, i requires 0 <= i < |srcs| => SourceMark + srcs[i])
  }

  /** `"\n".join(f" • {src}" for src in sources)`. */
  function SourceBlock(td: seq<Scored>, render: Score -> string): string {
    Join(Marked(Citations(td, render)), "\n")
  }

  /** The list `answer` that `generate_answer` joins: the header, the bullet
      list of sentences, the rationale and the list of sources. */
  function Parts(sentences: seq<string>, sources: seq<string>): seq<string> {
    [ Header,
      Bullet + Join(sentences, BulletSeparator),
      Rationale,
      SourcesHeading + Join(Marked(sources), "\n") ]
  }

  /** What `generate_answer(question, top_docs)` returns: `"".join(answer)`. */
  function AnswerText(td: seq<Scored>, render: Score -> string): string {
    Join(Parts(Sentences(td), Citations(td, render)), "")
  }

  /** The loop of `generate_answer`: for each retrieved pair in turn, its
      citation goes to `sources` and its pick to `sentences`. */
  method Collect(topDocs: seq<Scored>, render: Score -> string)
    returns (sentences: seq<string>, sources: seq<string>)
    ensures sentences == Sentences(topDocs)
    ensures sources == Citations(topDocs, render)
  {
    sentences := [];
    sources := [];
    for i := 0 to |topDocs|
      invariant sentences == Sentences(topDocs[..i])
      invariant sources == Citations(topDocs[..i], render)
    {
      var x := topDocs[i];
      CitationsStep(topDocs, i, render);
      sources := sources + [Citation(x, render)];
      var rawSentences := Fragments(x.doc.text);
      var pick := Prefix(rawSentences, 2);
      SentencesStep(topDocs, i);
      sentences := sentences + pick;
    }
    assert topDocs[..|topDocs|] == topDocs;
  }

  lemma CitationsStep(td: seq<Scored>, i: nat, render: Score -> string)
    requires i < |td|
    ensures Citations(td[..i + 1], render) == Citations(td[..i], render) + [Citation(td[i], render)]
  {
  }

  /** `generate_answer`: collect, then `"".join(answer)`. The question is not
      used, as in `generate_answer`. */
  method GenerateAnswer(question: string, topDocs: seq<Scored>, render: Score -> string)
    returns (answer: string)
    ensures answer == AnswerText(topDocs, render)
  {
    var sentences, sources := Collect(topDocs, render);
    answer := Join(Parts(sentences, sources), "");
  }

  /** `rag_answer(question, k)` on the corpus `corpus`. */
  function RagText(question: string, corpus: seq<Document>, k: int, render: Score -> string): string {
    var top := TopK(question, corpus, k);
    if AllZero(top) then Fallback else AnswerText(top, render)
  }

  /** `all(score == 0.0 for score, _ in top_docs)`; true for an empty list. */
  predicate AllZero(top: seq<Scored>) {
    forall i :: 0 <= i < |top| ==> IsZero(top[i].score)
  }

  /** `rag_answer`: retrieve, then either apologise or generate. */
  method RagAnswer(question: string, corpus: seq<Document>, k: int, render: Score -> string)
    returns (answer: string)
    ensures answer == RagText(question, corpus, k, render)
  {
    var topDocs := RetrieveTopK(question, corpus, k);
    if forall i :: 0 <= i < |topDocs| ==> IsZero(topDocs[i].score) {
      answer := Fallback;
    } else {
      answer := GenerateAnswer(question, topDocs, render);
    }
  }

  // Lemmas about the fragments.

  /** `strip` keeps a character out if the string had none. */
  lemma StripKeepsOut(s: string, c: char)
    requires c !in s
    ensures c !in Strip(s)
  {
    var r := Strip(s);
    var a := LeadingSpaces(s);
    assert forall i :: 0 <= i < |r| ==> r[i] == s[a + i];
  }

  /** A trimmed string is its own `strip`. */
  lemma StripTrimmed(s: string)
    requires Trimmed(s)
    ensures Strip(s) == s
  {
    assert LeadingSpaces(s) == 0;
    assert s[0..] == s;
    assert TrailingSpaces(s) == 0;
  }

  lemma {:induction false} KeepFragments(fs: seq<string>)
    requires forall i :: 0 <= i < |fs| ==> IsFragment(fs[i])
    ensures KeepStripped(fs) == fs
  {
    if fs != [] {
      StripTrimmed(fs[0]);
      KeepFragments(fs[1..]);
    }
  }

  /** Cutting fragments joined by periods gives the fragments back. */
  lemma FragmentsOfJoin(fs: seq<string>)
    requires forall i :: 0 <= i < |fs| ==> IsFragment(fs[i])
    ensures Fragments(Join(fs, ".")) == fs
  {
    if fs == [] {
      assert SplitOn([], '.') == [[]];
      assert Strip([]) == [];
    } else {
      SplitOnJoin(fs, '.');
      KeepFragments(fs);
    }
  }

  /** The sentences of consecutive lists of pairs are consecutive: the
      fragments come in the ranked order of their documents. */
  lemma {:induction false} SentencesAppend(a: seq<Scored>, b: seq<Scored>)
    ensures Sentences(a + b) == Sentences(a) + Sentences(b)
    decreases |b|
  {
    if b == [] {
      assert a + b == a;
    } else {
      var b' := b[..|b| - 1];
      var x := b[|b| - 1];
      DropLast(a, b);
      SentencesAppend(a, b');
      assert Sentences(a + b) == Sentences(a + b') + Pick(x.doc.text);
      assert Sentences(b) == Sentences(b') + Pick(x.doc.text);
      AppendAssoc(Sentences(a), Sentences(b'), Pick(x.doc.text));
    }
  }

  lemma DropLast(a: seq<Scored>, b: seq<Scored>)
    requires b != []
    ensures (a + b)[..|a + b| - 1] == a + b[..|b| - 1]
    ensures (a + b)[|a + b| - 1] == b[|b| - 1]
  {
  }

  /** Each document adds at most two fragments, each trimmed and free of
      periods. */
  lemma {:induction false} SentencesShape(td: seq<Scored>)
    ensures |Sentences(td)| <= 2 * |td|
    ensures AllFragments(Sentences(td))
  {
    if td != [] {
      var init := td[..|td| - 1];
      SentencesShape(init);
      PickShape(td[|td| - 1].doc.text);
      PickFragments(td[|td| - 1].doc.text);
      AllFragmentsAppend(Sentences(init), Pick(td[|td| - 1].doc.text));
    }
  }

  lemma PickFragments(text: string)
    ensures AllFragments(Pick(text))
  {
    FragmentsShape(text);
    var fs := Fragments(text);
    var p := Pick(text);
    forall i | 0 <= i < |p|
      ensures IsFragment(p[i])
    {
      assert p[i] == fs[i];
    }
  }

  lemma AllFragmentsAppend(a: seq<string>, b: seq<string>)
    requires AllFragments(a) && AllFragments(b)
    ensures AllFragments(a + b)
  {
    forall i | 0 <= i < |a + b|
      ensures IsFragment((a + b)[i])
    {
      if i >= |a| {
        assert (a + b)[i] == b[i - |a|];
      }
    }
  }

  /** One round of the loop adds the pick of the next pair. */
  lemma SentencesStep(td: seq<Scored>, i: nat)
    requires i < |td|
    ensures Sentences(td[..i + 1]) == Sentences(td[..i]) + Pick(td[i].doc.text)
  {
    assert td[..i + 1][..i] == td[..i];
  }

  // Lemmas about the assembled answer.

  lemma JoinFour(parts: seq<string>)
    requires |parts| == 4
    ensures Join(parts, "") == parts[0] + (parts[1] + (parts[2] + parts[3]))
  {
    var a, b, c, d := parts[0], parts[1], parts[2], parts[3];
    assert parts[1..][1..][1..] == [d];
    assert parts[1..][1..] == [c, d];
    assert parts[1..] == [b, c, d];
    assert Join([c, d], "") == c + [] + d;
    assert Join([b, c, d], "") == b + [] + (c + d);
  }

  lemma AppendParts(a: string, b: string)
    ensures a <= a + b && (a + b)[|a|..] == b
  {
  }

  /** The answer is the header, then the bullet list of sentences, then the
      rationale, then the sources heading and one line per source, with
      nothing in between. */
  lemma AnswerLayout(td: seq<Scored>, render: Score -> string)
    ensures var bullets := Bullet + Join(Sentences(td), BulletSeparator);
      var tail := Rationale + (SourcesHeading + SourceBlock(td, render));
      AnswerText(td, render) == Header + (bullets + tail)
  {
    JoinFour(Parts(Sentences(td), Citations(td, render)));
  }

  /** The answer begins with the header. */
  lemma AnswerStartsWithHeader(td: seq<Scored>, render: Score -> string)
    ensures Header <= AnswerText(td, render)
  {
    var bullets := Bullet + Join(Sentences(td), BulletSeparator);
    var tail := Rationale + (SourcesHeading + SourceBlock(td, render));
    AnswerLayout(td, render);
    AppendParts(Header, bullets + tail);
  }

  /** The answer ends with the rationale, the sources heading and the block
      of citations. */
  lemma AnswerEndsWithSources(td: seq<Scored>, render: Score -> string)
    ensures var tail := Rationale + (SourcesHeading + SourceBlock(td, render));
      var t := AnswerText(td, render);
      |tail| <= |t| && t[|t| - |tail|..] == tail
  {
    var bullets := Bullet + Join(Sentences(td), BulletSeparator);
    var tail := Rationale + (SourcesHeading + SourceBlock(td, render));
    AnswerLayout(td, render);
    AppendAssoc(Header, bullets, tail);
    AppendParts(Header + bullets, tail);
  }

  /** A generated answer is never the apology. */
  lemma AnswerIsNotFallback(td: seq<Scored>, render: Score -> string)
    ensures AnswerText(td, render) != Fallback
  {
    AnswerStartsWithHeader(td, render);
    var t := AnswerText(td, render);
    assert Header[0] == 'H' && Fallback[0] == 'I';
    assert t[0] == Header[0];
  }

  lemma MarkedNoNewline(td: seq<Scored>, render: Score -> string, i: nat)
    requires i < |td|
    requires '\n' !in td[i].doc.title && '\n' !in render(td[i].score)
    ensures '\n' !in Marked(Citations(td, render))[i]
  {
    var c := Citation(td[i], render);
    assert Marked(Citations(td, render))[i] == SourceMark + td[i].doc.title + " (score=" + render(td[i].score) + ")";
  }

  /** The source block has one line per retrieved pair, ` • title (score=…)`,
      in ranked order, when neither titles nor rendered scores hold a line
      break. */
  lemma SourceLines(td: seq<Scored>, render: Score -> string)
    requires td != []
    requires forall i :: 0 <= i < |td| ==> '\n' !in td[i].doc.title && '\n' !in render(td[i].score)
    ensures var lines := SplitOn(SourceBlock(td, render), '\n');
      && |lines| == |td|
      && forall i :: 0 <= i < |td| ==> lines[i] == SourceMark + Citation(td[i], render)
  {
    forall i | 0 <= i < |td|
      ensures '\n' !in Marked(Citations(td, render))[i]
    {
      MarkedNoNewline(td, render, i);
    }
    SplitOnJoin(Marked(Citations(td, render)), '\n');
  }

  // Lemmas about the pipeline.

  /** `rag_answer` apologises exactly when every retrieved score is zero,
      which includes retrieving nothing at all. */
  lemma FallbackIffAllZero(question: string, corpus: seq<Document>, k: int, render: Score -> string)
    ensures RagText(question, corpus, k, render) == Fallback <==> AllZero(TopK(question, corpus, k))
  {
    AnswerIsNotFallback(TopK(question, corpus, k), render);
  }

  /** A retrieved pair is the scored pair of a document of the corpus. */
  lemma TopKFromCorpus(question: string, corpus: seq<Document>, k: int, x: Scored)
    requires x in TopK(question, corpus, k)
    ensures x.doc in corpus && x.score == ScoreOf(Vectorize(Clean(question)), x.doc)
  {
    var all := ScoreAll(Vectorize(Clean(question)), corpus);
    TopKDominates(question, corpus, k);
    assert x in multiset(all);
    var i :| 0 <= i < |all| && all[i] == x;
  }

  /** `rag_answer` apologises exactly when no retrieved document shares a
      word with the question. */
  lemma FallbackIffNoSharedWord(question: string, corpus: seq<Document>, k: int, render: Score -> string)
    ensures RagText(question, corpus, k, render) == Fallback
        <==> forall x :: x in TopK(question, corpus, k) ==>
               forall w :: w in Clean(question) ==> w !in Clean(x.doc.text)
  {
    var top := TopK(question, corpus, k);
    FallbackIffAllZero(question, corpus, k, render);
    forall x | x in top
      ensures IsZero(x.score) <==> forall w :: w in Clean(question) ==> w !in Clean(x.doc.text)
    {
      TopKFromCorpus(question, corpus, k, x);
      ZeroScoreIffNoSharedWord(question, x.doc);
    }
    if AllZero(top) {
      forall x | x in top
        ensures IsZero(x.score)
      {
        var i :| 0 <= i < |top| && top[i] == x;
      }
    }
  }

  /** If `k` takes at least one document and some document of the corpus
      shares a word with the question, `rag_answer` does not apologise: the
      best document leads the ranking. */
  lemma AnswersWhenSomeDocumentMatches(question: string, corpus: seq<Document>, k: int,
                                       render: Score -> string, doc: Document, w: string)
    requires k >= 1 && doc in corpus
    requires w in Clean(question) && w in Clean(doc.text)
    ensures RagText(question, corpus, k, render) != Fallback
  {
    var q := Vectorize(Clean(question));
    var all := ScoreAll(q, corpus);
    var sorted := StableSortDesc(all);
    var top := TopK(question, corpus, k);
    var i :| 0 <= i < |corpus| && corpus[i] == doc;
    ZeroScoreIffNoSharedWord(question, doc);
    assert !IsZero(all[i].score);
    ZeroIffKeyZero(all[i].score);
    StableSortPermutation(all);
    assert all[i] in multiset(sorted);
    SortedHeadMax(sorted, all[i]);
    TopKLength(question, corpus, k);
    assert top[0] == sorted[0];
    ZeroIffKeyZero(top[0].score);
    FallbackIffAllZero(question, corpus, k, render);
  }

  /** A question without words gets the apology, whatever the corpus. */
  lemma NoWordsFallback(question: string, corpus: seq<Document>, k: int, render: Score -> string)
    requires Clean(question) == []
    ensures RagText(question, corpus, k, render) == Fallback
  {
    FallbackIffNoSharedWord(question, corpus, k, render);
  }
}
