/** `retrieve_top_k`: score every document of the corpus against the
    question, sort the scored list by score, highest first, and keep the
    first `k` entries. The sort is Python's `list.sort(key=..., reverse=True)`,
    which is stable: documents with equal scores keep their corpus order. */
module Retrieval {
  import opened Builtins
  import opened Tokenizer
  import opened BagOfWords
  import opened Similarity

  /** One entry of the corpus: a dictionary with a `title` and a `text`. */
  datatype Document = Document(title: string, text: string)

  /** One `(score, doc)` pair of the ranked list. */
  datatype Scored = Scored(score: Score, doc: Document)

  /** The sort key `x[0]`, compared through the square of the score. */
  function Key(x: Scored): real {
    SquaredValue(x.score)
  }

  /** The score of one document: `cosine_similarity(q_vec, vectorize(clean(text)))`. */
  function ScoreOf(q: Counter, doc: Document): Score
    requires Valid(q)
  {
    CosineSimilarity(q, Vectorize(Clean(doc.text)))
  }

  /** The list `scored` before sorting: one pair per document, in corpus order. */
  function ScoreAll(q: Counter, corpus: seq<Document>): seq<Scored>
    requires Valid(q)
  {
    seq(|corpus|, i requires 0 <= i < |corpus| => Scored(ScoreOf(q, corpus[i]), corpus[i]))
  }

  /** Highest score first. */
  predicate SortedDesc(xs: seq<Scored>) {
    forall i, j :: 0 <= i < j < |xs| ==> Key(xs[i]) >= Key(xs[j])
  }

  /** The entries of `xs` whose key is `r`, in their order in `xs`. A sort is
      stable when it leaves every such list as it was. */
  function Ties(xs: seq<Scored>, r: real): seq<Scored> {
    if xs == [] then []
    else (if Key(xs[0]) == r then [xs[0]] else []) + Ties(xs[1..], r)
  }

  /** Where a stable descending insertion puts `x` into `s`: after the last
      entry whose key is at least `x`'s, everything behind it being smaller. */
  function InsertPos(s: seq<Scored>, x: Scored): (p: nat)
    ensures p <= |s|
    ensures p > 0 ==> Key(s[p - 1]) >= Key(x)
    ensures forall k :: p <= k < |s| ==> Key(s[k]) < Key(x)
  {
    if s == [] || Key(s[|s| - 1]) >= Key(x) then |s| else InsertPos(s[..|s| - 1], x)
  }

  function Insert(s: seq<Scored>, x: Scored): seq<Scored> {
    var p := InsertPos(s, x);
    s[..p] + [x] + s[p..]
  }

  /** The stable descending sort, as insertion sort: each entry in turn is
      inserted behind every earlier entry of at least its score. The result is
      sorted and a permutation of the input. */
  function StableSortDesc(xs: seq<Scored>): (r: seq<Scored>)
    ensures SortedDesc(r)
  {
    if xs == [] then []
    else
      var init := xs[..|xs| - 1];
      assert xs == init + [xs[|xs| - 1]];
      var s := StableSortDesc(init);
      InsertSorted(s, xs[|xs| - 1]);
      Insert(s, xs[|xs| - 1])
  }

  lemma InsertMultiset(s: seq<Scored>, x: Scored)
    ensures multiset(Insert(s, x)) == multiset(s) + multiset{x}
  {
    var p := InsertPos(s, x);
    assert s == s[..p] + s[p..];
  }

  /** The sort is a permutation of its input. */
  lemma {:induction false} StableSortPermutation(xs: seq<Scored>)
    ensures multiset(StableSortDesc(xs)) == multiset(xs)
  {
    if xs != [] {
      var init := xs[..|xs| - 1];
      assert xs == init + [xs[|xs| - 1]];
      StableSortPermutation(init);
      InsertMultiset(StableSortDesc(init), xs[|xs| - 1]);
    }
  }

  lemma InsertIndex(s: seq<Scored>, x: Scored, k: nat)
    requires k <= |s|
    ensures var p := InsertPos(s, x);
      Insert(s, x)[k] == if k < p then s[k] else if k == p then x else s[k - 1]
  {
  }

  /** Inserting into a sorted list keeps it sorted. */
  lemma InsertSorted(s: seq<Scored>, x: Scored)
    requires SortedDesc(s)
    ensures SortedDesc(Insert(s, x))
  {
    var p := InsertPos(s, x);
    var r := Insert(s, x);
    forall i, j | 0 <= i < j < |r|
      ensures Key(r[i]) >= Key(r[j])
    {
      InsertIndex(s, x, i);
      InsertIndex(s, x, j);
    }
  }

  /** The conditions of `InsertPos` pin the position down: a position with
      nothing smaller in front and everything smaller behind is `InsertPos`. */
  lemma InsertPosUnique(s: seq<Scored>, x: Scored, j: nat)
    requires j <= |s|
    requires j > 0 ==> Key(s[j - 1]) >= Key(x)
    requires forall k :: j <= k < |s| ==> Key(s[k]) < Key(x)
    ensures InsertPos(s, x) == j
  {
  }

  lemma {:induction false} TiesAppend(a: seq<Scored>, b: seq<Scored>, r: real)
    ensures Ties(a + b, r) == Ties(a, r) + Ties(b, r)
  {
    if a == [] {
      assert a + b == b;
    } else {
      var head := if Key(a[0]) == r then [a[0]] else [];
      assert (a + b)[1..] == a[1..] + b;
      assert Ties(a + b, r) == head + Ties(a[1..] + b, r);
      TiesAppend(a[1..], b, r);
      AppendAssoc(head, Ties(a[1..], r), Ties(b, r));
    }
  }

  lemma {:induction false} TiesNone(xs: seq<Scored>, r: real)
    requires forall k :: 0 <= k < |xs| ==> Key(xs[k]) != r
    ensures Ties(xs, r) == []
  {
    if xs != [] {
      TiesNone(xs[1..], r);
    }
  }

  /** The entries of `Ties(xs, r)` are those of `xs` with key `r`. */
  lemma {:induction false} TiesMember(xs: seq<Scored>, r: real, y: Scored)
    ensures y in Ties(xs, r) <==> y in xs && Key(y) == r
  {
    if xs != [] {
      TiesMember(xs[1..], r, y);
      assert xs == [xs[0]] + xs[1..];
    }
  }

  /** Inserting `x` adds it at the end of the entries sharing its key. */
  lemma TiesInsert(s: seq<Scored>, x: Scored, r: real)
    ensures Ties(Insert(s, x), r) == Ties(s, r) + (if Key(x) == r then [x] else [])
  {
    var p := InsertPos(s, x);
    assert s == s[..p] + s[p..];
    TiesMiddle(s[..p], x, s[p..], r);
  }

  /** `x` placed in front of entries of smaller key comes after all entries
      with its key. */
  lemma TiesMiddle(u: seq<Scored>, x: Scored, w: seq<Scored>, r: real)
    requires forall k :: 0 <= k < |w| ==> Key(w[k]) < Key(x)
    ensures Ties(u + [x] + w, r) == Ties(u + w, r) + (if Key(x) == r then [x] else [])
  {
    TiesAppend(u + [x], w, r);
    TiesAppend(u, [x], r);
    TiesSingle(x, r);
    TiesAppend(u, w, r);
    if Key(x) == r {
      TiesNone(w, r);
    }
  }

  lemma TiesSingle(x: Scored, r: real)
    ensures Ties([x], r) == if Key(x) == r then [x] else []
  {
    assert [x][1..] == [];
  }

  /** The sort is stable: for every score, the entries with that score keep
      their relative order. */
  lemma {:induction false} StableSortStable(xs: seq<Scored>, r: real)
    ensures Ties(StableSortDesc(xs), r) == Ties(xs, r)
  {
    if xs != [] {
      var init := xs[..|xs| - 1];
      var x := xs[|xs| - 1];
      assert xs == init + [x];
      StableSortStable(init, r);
      TiesInsert(StableSortDesc(init), x, r);
      TiesAppend(init, [x], r);
    }
  }

  /** Two sorted lists with the same entries per score are the same list. */
  lemma {:induction false} SortedTiesUnique(a: seq<Scored>, b: seq<Scored>)
    requires SortedDesc(a) && SortedDesc(b)
    requires forall r :: Ties(a, r) == Ties(b, r)
    ensures a == b
    decreases |a|
  {
    if a == [] || b == [] {
      if a != [] {
        TiesMember(a, Key(a[0]), a[0]);
        TiesMember(b, Key(a[0]), a[0]);
      } else if b != [] {
        TiesMember(b, Key(b[0]), b[0]);
        TiesMember(a, Key(b[0]), b[0]);
      }
    } else {
      HeadsAgree(a, b);
      forall r
        ensures Ties(a[1..], r) == Ties(b[1..], r)
      {
        var t := if Key(a[0]) == r then [a[0]] else [];
        TiesCons(a, r);
        TiesCons(b, r);
        assert Ties(a, r) == Ties(b, r);
        assert Ties(a[1..], r) == Ties(a, r)[|t|..];
        assert Ties(b[1..], r) == Ties(b, r)[|t|..];
      }
      SortedTiesUnique(a[1..], b[1..]);
      assert a == [a[0]] + a[1..];
      assert b == [b[0]] + b[1..];
    }
  }

  lemma TiesCons(a: seq<Scored>, r: real)
    requires a != []
    ensures Ties(a, r) == (if Key(a[0]) == r then [a[0]] else []) + Ties(a[1..], r)
  {
  }

  /** The first entry of a sorted list has the largest key. */
  lemma SortedHeadMax(a: seq<Scored>, y: Scored)
    requires SortedDesc(a) && y in a
    ensures Key(a[0]) >= Key(y)
  {
    var j :| 0 <= j < |a| && a[j] == y;
    if j > 0 {
      assert Key(a[0]) >= Key(a[j]);
    }
  }

  /** Two non-empty sorted lists with the same entries per score start with
      the same entry. */
  lemma HeadsAgree(a: seq<Scored>, b: seq<Scored>)
    requires a != [] && b != []
    requires SortedDesc(a) && SortedDesc(b)
    requires forall r :: Ties(a, r) == Ties(b, r)
    ensures a[0] == b[0]
  {
    var ka, kb := Key(a[0]), Key(b[0]);
    TiesMember(a, ka, a[0]);
    TiesMember(b, ka, a[0]);
    SortedHeadMax(b, a[0]);
    TiesMember(b, kb, b[0]);
    TiesMember(a, kb, b[0]);
    SortedHeadMax(a, b[0]);
    TiesCons(a, ka);
    TiesCons(b, ka);
    assert Ties(a, ka)[0] == a[0];
  }

  /** A list is the stable descending sort of `xs` exactly when it is sorted
      and has the same entries as `xs` for every score, in the same order. */
  lemma StableSortCharacterized(xs: seq<Scored>, ys: seq<Scored>)
    ensures ys == StableSortDesc(xs) ==> SortedDesc(ys) && forall r :: Ties(ys, r) == Ties(xs, r)
    ensures SortedDesc(ys) && (forall r :: Ties(ys, r) == Ties(xs, r)) ==> ys == StableSortDesc(xs)
  {
    if ys == StableSortDesc(xs) {
      StableSortTies(xs);
    }
    if SortedDesc(ys) && forall r :: Ties(ys, r) == Ties(xs, r) {
      SortedStableIsStableSort(xs, ys);
    }
  }

  lemma StableSortTies(xs: seq<Scored>)
    ensures forall r :: Ties(StableSortDesc(xs), r) == Ties(xs, r)
  {
    forall r
      ensures Ties(StableSortDesc(xs), r) == Ties(xs, r)
    {
      StableSortStable(xs, r);
    }
  }

  lemma SortedStableIsStableSort(xs: seq<Scored>, ys: seq<Scored>)
    requires SortedDesc(ys) && forall r :: Ties(ys, r) == Ties(xs, r)
    ensures ys == StableSortDesc(xs)
  {
    var zs := StableSortDesc(xs);
    StableSortTies(xs);
    forall r
      ensures Ties(ys, r) == Ties(zs, r)
    {
      assert Ties(ys, r) == Ties(xs, r);
    }
    SortedTiesUnique(ys, zs);
  }

  /** `scored.sort(key=lambda x: x[0], reverse=True)`, in place, as the
      insertion sort that Python's sort performs on short lists. */
  method SortDesc(a: array<Scored>)
    modifies a
    ensures a[..] == StableSortDesc(old(a[..]))
  {
    ghost var o := a[..];
    var i := 0;
    while i < a.Length
      invariant 0 <= i <= a.Length
      invariant a[..i] == StableSortDesc(o[..i])
      invariant a[i..] == o[i..]
    {
      ghost var sorted := a[..i];
      ghost var rest := a[i + 1..];
      assert a[i] == a[i..][0] == o[i..][0] == o[i];
      assert rest == a[i..][1..] == o[i..][1..] == o[i + 1..];
      InsertAt(a, i);
      SortStep(o, i);
      assert a[..i + 1] == Insert(sorted, o[i]);
      i := i + 1;
    }
    ghost var final := a[..];
    assert final == a[..i];
    assert o[..i] == o;
  }

  /** One round of the insertion sort: `a[i]` moves into the sorted prefix
      `a[..i]`, shifting the smaller entries up by one. */
  method InsertAt(a: array<Scored>, i: nat)
    requires i < a.Length
    modifies a
    ensures a[..i + 1] == Insert(old(a[..i]), old(a[i]))
    ensures a[i + 1..] == old(a[i + 1..])
  {
    ghost var s := a[..i];
    var x := a[i];
    var j := i;
    while j > 0 && Key(a[j - 1]) < Key(x)
      invariant 0 <= j <= i
      invariant forall m :: 0 <= m < j ==> a[m] == s[m]
      invariant forall m :: j < m <= i ==> a[m] == s[m - 1]
      invariant forall m :: i < m < a.Length ==> a[m] == old(a[m])
      invariant forall m :: j <= m < i ==> Key(s[m]) < Key(x)
    {
      a[j] := a[j - 1];
      j := j - 1;
    }
    a[j] := x;
    ghost var t := a[..i + 1];
    assert forall m :: 0 <= m < j ==> t[m] == s[m];
    assert forall m :: j < m <= i ==> t[m] == s[m - 1];
    ShiftedIsInsert(s, x, j, t);
  }

  /** `s` with the entries from `j` on moved up by one and `x` put at `j` is
      the insertion of `x`, when `j` is where the insertion puts it. */
  lemma ShiftedIsInsert(s: seq<Scored>, x: Scored, j: nat, t: seq<Scored>)
    requires j <= |s| && |t| == |s| + 1
    requires j > 0 ==> Key(s[j - 1]) >= Key(x)
    requires forall k :: j <= k < |s| ==> Key(s[k]) < Key(x)
    requires forall m :: 0 <= m < j ==> t[m] == s[m]
    requires t[j] == x
    requires forall m :: j < m <= |s| ==> t[m] == s[m - 1]
    ensures t == Insert(s, x)
  {
    InsertPosUnique(s, x, j);
    forall m | 0 <= m <= |s|
      ensures t[m] == Insert(s, x)[m]
    {
      InsertIndex(s, x, m);
    }
  }

  lemma SortStep(o: seq<Scored>, i: nat)
    requires i < |o|
    ensures StableSortDesc(o[..i + 1]) == Insert(StableSortDesc(o[..i]), o[i])
  {
    assert o[..i + 1][..i] == o[..i];
  }

  /** What `retrieve_top_k(question, k)` returns for the corpus `corpus`. */
  function TopK(question: string, corpus: seq<Document>, k: int): seq<Scored> {
    Prefix(StableSortDesc(ScoreAll(Vectorize(Clean(question)), corpus)), k)
  }

  /** The scoring loop of `retrieve_top_k`: one `(score, doc)` pair per
      document, appended in corpus order. */
  method ScoreCorpus(q: Counter, corpus: seq<Document>) returns (scored: seq<Scored>)
    requires Valid(q)
    ensures scored == ScoreAll(q, corpus)
  {
    scored := [];
    for i := 0 to |corpus|
      invariant |scored| == i
      invariant forall j :: 0 <= j < i ==> scored[j] == Scored(ScoreOf(q, corpus[j]), corpus[j])
    {
      var d := Vectorize(Clean(corpus[i].text));
      var score := CosineSimilarity(q, d);
      scored := scored + [Scored(score, corpus[i])];
    }
  }

  /** `retrieve_top_k`: the scoring loop, the in-place sort and the slice. */
  method RetrieveTopK(question: string, corpus: seq<Document>, k: int) returns (top: seq<Scored>)
    ensures top == TopK(question, corpus, k)
  {
    var q := Vectorize(Clean(question));
    var scored := ScoreCorpus(q, corpus);
    var a := new Scored[|scored|](j requires 0 <= j < |scored| => scored[j]);
    assert a[..] == scored;
    SortDesc(a);
    top := Prefix(a[..], k);
  }

  /** The length of the result: `min(k, n)` for `k >= 0`, and `max(n + k, 0)`
      for negative `k`, as the slice `scored[:k]` gives. */
  lemma TopKLength(question: string, corpus: seq<Document>, k: int)
    ensures var n := |corpus|;
      |TopK(question, corpus, k)| == if k >= 0 then (if k <= n then k else n)
                                     else (if n + k >= 0 then n + k else 0)
  {
    var all := ScoreAll(Vectorize(Clean(question)), corpus);
    StableSortPermutation(all);
    assert |multiset(StableSortDesc(all))| == |multiset(all)|;
  }

  /** The retrieved pairs come highest score first. */
  lemma TopKSorted(question: string, corpus: seq<Document>, k: int)
    ensures SortedDesc(TopK(question, corpus, k))
  {
    var sorted := StableSortDesc(ScoreAll(Vectorize(Clean(question)), corpus));
    var top := TopK(question, corpus, k);
    forall i, j | 0 <= i < j < |top|
      ensures Key(top[i]) >= Key(top[j])
    {
      assert top[i] == sorted[i] && top[j] == sorted[j];
    }
  }

  /** The retrieved pairs are pairs of the scored corpus, and each scores at
      least as high as every pair left behind. */
  lemma TopKDominates(question: string, corpus: seq<Document>, k: int)
    ensures var all := ScoreAll(Vectorize(Clean(question)), corpus);
      var top := TopK(question, corpus, k);
      && multiset(top) <= multiset(all)
      && forall x, y :: x in top && y in multiset(all) - multiset(top) ==> Key(x) >= Key(y)
  {
    var all := ScoreAll(Vectorize(Clean(question)), corpus);
    var sorted := StableSortDesc(all);
    var top := TopK(question, corpus, k);
    assert top == sorted[..|top|];
    StableSortPermutation(all);
    SplitMultiset(sorted, |top|);
    SortedSplit(sorted, |top|);
  }

  lemma SplitMultiset(s: seq<Scored>, m: nat)
    requires m <= |s|
    ensures multiset(s[..m]) <= multiset(s)
    ensures multiset(s) - multiset(s[..m]) == multiset(s[m..])
  {
    assert s == s[..m] + s[m..];
  }

  /** In a sorted list, every entry of a prefix has at least the key of every
      entry after it. */
  lemma SortedSplit(s: seq<Scored>, m: nat)
    requires m <= |s| && SortedDesc(s)
    ensures forall x, y :: x in s[..m] && y in multiset(s[m..]) ==> Key(x) >= Key(y)
  {
    forall x, y | x in s[..m] && y in multiset(s[m..])
      ensures Key(x) >= Key(y)
    {
      var i :| 0 <= i < m && s[..m][i] == x;
      var j :| 0 <= j < |s| - m && s[m..][j] == y;
      assert s[i] == x && s[m + j] == y;
    }
  }

  lemma {:induction false} TiesPrefix(s: seq<Scored>, m: nat, r: real)
    requires m <= |s|
    ensures Ties(s[..m], r) <= Ties(s, r)
  {
    assert s == s[..m] + s[m..];
    TiesAppend(s[..m], s[m..], r);
  }

  /** Among documents of equal score, the retrieved ones are those that come
      first in the corpus. */
  lemma TopKPrefersEarlier(question: string, corpus: seq<Document>, k: int, r: real)
    ensures Ties(TopK(question, corpus, k), r) <= Ties(ScoreAll(Vectorize(Clean(question)), corpus), r)
  {
    var all := ScoreAll(Vectorize(Clean(question)), corpus);
    var sorted := StableSortDesc(all);
    TiesPrefix(sorted, |TopK(question, corpus, k)|, r);
    StableSortStable(all, r);
  }

  /** A document scores zero exactly when it shares no word with the question
      (the question or the document having no words at all included). */
  lemma ZeroScoreIffNoSharedWord(question: string, doc: Document)
    ensures IsZero(ScoreOf(Vectorize(Clean(question)), doc))
        <==> forall w :: w in Clean(question) ==> w !in Clean(doc.text)
  {
    var q := Vectorize(Clean(question));
    var d := Vectorize(Clean(doc.text));
    DotZeroIffDisjoint(q, d);
    MagnitudeZeroIffEmpty(q);
    MagnitudeZeroIffEmpty(d);
    if Clean(question) != [] {
      assert Clean(question)[0] in q.counts;
    }
    if Clean(doc.text) != [] {
      assert Clean(doc.text)[0] in d.counts;
    }
  }
}
