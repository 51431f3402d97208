/** The bag-of-words vector `vectorize`, i.e. Python's `Counter(tokens)`, and
    the sums over it that the similarity scorer takes. */
module BagOfWords {
  import opened Builtins

  /** A `Counter`: a dictionary from word to count. `order` lists its keys in
      insertion order (first occurrence), as a Python dict iterates them. */
  datatype Counter = Counter(order: seq<string>, counts: map<string, nat>)

  /** Each key is listed once, and the listed keys are the dictionary's keys. */
  ghost predicate Valid(v: Counter) {
    Distinct(v.order) && forall w :: w in v.counts <==> w in v.order
  }

  /** Every stored count is positive, as for a counter built from tokens. */
  ghost predicate Positive(v: Counter) {
    forall w :: w in v.counts ==> v.counts[w] > 0
  }

  /** `v[w]`: a counter answers 0 for a word it does not hold. */
  function Get(v: Counter, w: string): nat {
    if w in v.counts then v.counts[w] else 0
  }

  /** One step of `Counter`'s counting loop: `v[t] = v.get(t, 0) + 1`. */
  function Increment(v: Counter, t: string): Counter {
    if t in v.counts then Counter(v.order, v.counts[t := v.counts[t] + 1])
    else Counter(v.order + [t], v.counts[t := 1])
  }

  /** `vectorize(tokens)`: each distinct token maps to its number of
      occurrences, and nothing else is a key. */
  function Vectorize(tokens: seq<string>): (v: Counter)
    ensures Valid(v) && Positive(v)
    ensures forall w :: w in v.counts <==> w in tokens
    ensures forall w :: Get(v, w) == multiset(tokens)[w]
  {
    if tokens == [] then Counter([], map[])
    else
      var init := tokens[..|tokens| - 1];
      var t := tokens[|tokens| - 1];
      assert tokens == init + [t];
      var v := Vectorize(init);
      var v' := Increment(v, t);
      assert Distinct(v'.order) by {
        if t !in v.counts {
          assert forall i :: 0 <= i < |v.order| ==> v'.order[i] == v.order[i];
        }
      }
      v'
  }

  /** Sum of `f` over `xs`. */
  function Sum<T>(xs: seq<T>, f: T -> int): int {
    if xs == [] then 0 else f(xs[0]) + Sum(xs[1..], f)
  }

  /** The count law of a `Counter` summed: the counts `v.values()` add up. */
  function CountOf(v: Counter): string -> int {
    w => Get(v, w)
  }

  function Total(v: Counter): int {
    Sum(v.order, CountOf(v))
  }

  lemma {:induction false} SumAppend<T>(a: seq<T>, b: seq<T>, f: T -> int)
    ensures Sum(a + b, f) == Sum(a, f) + Sum(b, f)
  {
    if a == [] {
      assert a + b == b;
    } else {
      assert (a + b)[1..] == a[1..] + b;
      SumAppend(a[1..], b, f);
    }
  }

  lemma {:induction false} SumNonNegative<T>(xs: seq<T>, f: T -> int)
    requires forall x :: x in xs ==> f(x) >= 0
    ensures Sum(xs, f) >= 0
  {
    if xs != [] {
      SumNonNegative(xs[1..], f);
    }
  }

  /** A sum of positive terms is zero only when there are no terms. */
  lemma {:induction false} SumPositive<T>(xs: seq<T>, f: T -> int)
    requires forall x :: x in xs ==> f(x) > 0
    ensures Sum(xs, f) == 0 <==> xs == []
  {
    if xs != [] {
      SumNonNegative(xs[1..], f);
    }
  }

  lemma {:induction false} SumCongruent<T>(xs: seq<T>, f: T -> int, g: T -> int)
    requires forall x :: x in xs ==> f(x) == g(x)
    ensures Sum(xs, f) == Sum(xs, g)
  {
    if xs != [] {
      SumCongruent(xs[1..], f, g);
    }
  }

  /** Taking out one element of the sequence takes out its term. */
  lemma {:induction false} SumRemove<T>(xs: seq<T>, i: nat, f: T -> int)
    requires i < |xs|
    ensures Sum(xs, f) == f(xs[i]) + Sum(xs[..i] + xs[i + 1..], f)
  {
    var l, r := xs[..i], xs[i + 1..];
    SplitAround(xs, i);
    SumAppend(l + [xs[i]], r, f);
    SumAppend(l, [xs[i]], f);
    SumAppend(l, r, f);
    assert Sum([xs[i]], f) == f(xs[i]) + Sum([xs[i]][1..], f);
  }

  /** Sums are invariant under permutation. */
  lemma {:induction false} SumPermutation<T>(xs: seq<T>, ys: seq<T>, f: T -> int)
    requires multiset(xs) == multiset(ys)
    ensures Sum(xs, f) == Sum(ys, f)
    decreases |xs|
  {
    if xs != [] {
      var ys' := MatchFirst(xs, ys, f);
      SumPermutation(xs[1..], ys', f);
    } else {
      assert ys == [];
    }
  }

  /** Taking the first element of `xs` out of its permutation `ys`. */
  lemma MatchFirst<T>(xs: seq<T>, ys: seq<T>, f: T -> int) returns (ys': seq<T>)
    requires multiset(xs) == multiset(ys) && xs != []
    ensures multiset(xs[1..]) == multiset(ys')
    ensures Sum(ys, f) == f(xs[0]) + Sum(ys', f)
  {
    assert xs[0] in multiset(ys);
    var i :| 0 <= i < |ys| && ys[i] == xs[0];
    ys' := RemoveAt(ys, i);
    SumRemove(ys, i, f);
    assert xs == [xs[0]] + xs[1..];
    assert multiset(xs[1..]) == multiset(xs) - multiset{xs[0]};
  }

  /** With non-negative terms, the sum over a sub-multiset is no larger. */
  lemma {:induction false} SumSubMultiset<T>(xs: seq<T>, ys: seq<T>, f: T -> int)
    requires multiset(xs) <= multiset(ys)
    requires forall y :: y in ys ==> f(y) >= 0
    ensures Sum(xs, f) <= Sum(ys, f)
    decreases |ys|
  {
    if ys == [] {
      assert xs == [];
    } else {
      var xs' := DropMatch(xs, ys, f);
      SumSubMultiset(xs', ys[1..], f);
    }
  }

  /** Taking the first element of `ys` out of its sub-multiset `xs`, if it is there. */
  lemma DropMatch<T>(xs: seq<T>, ys: seq<T>, f: T -> int) returns (xs': seq<T>)
    requires multiset(xs) <= multiset(ys) && ys != []
    requires forall y :: y in ys ==> f(y) >= 0
    ensures multiset(xs') <= multiset(ys[1..])
    ensures forall y :: y in ys[1..] ==> f(y) >= 0
    ensures Sum(xs, f) <= f(ys[0]) + Sum(xs', f)
  {
    var y := ys[0];
    assert ys == [y] + ys[1..];
    assert multiset(ys[1..]) == multiset(ys) - multiset{y};
    if y in multiset(xs) {
      var i :| 0 <= i < |xs| && xs[i] == y;
      xs' := RemoveAt(xs, i);
      SumRemove(xs, i, f);
    } else {
      xs' := xs;
    }
  }

  /** `xs` without its element at `i`. */
  function RemoveAt<T>(xs: seq<T>, i: nat): (r: seq<T>)
    requires i < |xs|
    ensures multiset(r) == multiset(xs) - multiset{xs[i]}
  {
    assert xs == xs[..i] + [xs[i]] + xs[i + 1..];
    xs[..i] + xs[i + 1..]
  }

  /** A term raised by one at every occurrence of `t` raises the sum by the
      number of occurrences. */
  lemma {:induction false} SumBump<T>(xs: seq<T>, f: T -> int, g: T -> int, t: T)
    requires forall x :: g(x) == f(x) + (if x == t then 1 else 0)
    ensures Sum(xs, g) == Sum(xs, f) + multiset(xs)[t]
  {
    if xs != [] {
      assert xs == [xs[0]] + xs[1..];
      SumBump(xs[1..], f, g, t);
    }
  }

  /** In a sequence without repetitions every element occurs once. */
  lemma {:induction false} DistinctMultiplicity<T>(xs: seq<T>, x: T)
    requires Distinct(xs)
    ensures multiset(xs)[x] == if x in xs then 1 else 0
  {
    if xs != [] {
      assert xs == [xs[0]] + xs[1..];
      DistinctMultiplicity(xs[1..], x);
    }
  }

  /** Two repetition-free sequences with the same elements are permutations. */
  lemma DistinctSameElements<T>(xs: seq<T>, ys: seq<T>)
    requires Distinct(xs) && Distinct(ys)
    requires forall x :: x in xs <==> x in ys
    ensures multiset(xs) == multiset(ys)
  {
    forall x ensures multiset(xs)[x] == multiset(ys)[x] {
      DistinctMultiplicity(xs, x);
      DistinctMultiplicity(ys, x);
    }
  }

  /** A repetition-free sequence of elements of `ys` is a sub-multiset of `ys`. */
  lemma DistinctSubset<T>(xs: seq<T>, ys: seq<T>)
    requires Distinct(xs)
    requires forall x :: x in xs ==> x in ys
    ensures multiset(xs) <= multiset(ys)
  {
    forall x ensures multiset(xs)[x] <= multiset(ys)[x] {
      DistinctMultiplicity(xs, x);
    }
  }

  /** The counts of `vectorize(tokens)` add up to the number of tokens. */
  lemma {:induction false} VectorizeTotal(tokens: seq<string>)
    ensures Total(Vectorize(tokens)) == |tokens|
  {
    if tokens != [] {
      var init := tokens[..|tokens| - 1];
      var t := tokens[|tokens| - 1];
      assert tokens == init + [t];
      VectorizeTotal(init);
      IncrementTotal(Vectorize(init), t);
    }
  }

  /** Counting one more token raises the total by one. */
  lemma IncrementTotal(v: Counter, t: string)
    requires Valid(v)
    ensures Total(Increment(v, t)) == Total(v) + 1
  {
    var v' := Increment(v, t);
    if t in v.counts {
      SumBump(v.order, CountOf(v), CountOf(v'), t);
      DistinctMultiplicity(v.order, t);
    } else {
      SumCongruent(v.order, CountOf(v), CountOf(v'));
      SumAppend(v.order, [t], CountOf(v'));
    }
  }

  /** The example of `vectorize`'s documentation: `["sun", "gravity", "sun"]`
      gives `{"sun": 2, "gravity": 1}`. */
  lemma VectorizeExample()
    ensures var v := Vectorize(["sun", "gravity", "sun"]);
      && Get(v, "sun") == 2 && Get(v, "gravity") == 1
      && forall w :: w in v.counts <==> w == "sun" || w == "gravity"
  {
    var ts := ["sun", "gravity", "sun"];
    assert "gravity" != "sun";
    assert multiset(ts) == multiset{"sun"} + multiset{"gravity"} + multiset{"sun"};
  }
}
