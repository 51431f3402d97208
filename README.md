# A verified model of a lexical retrieval-and-answer pipeline

This project models a small "retrieval-augmented" question answerer written
in Python (`RAG_10thstd.py`). It has no language model. A question and every
document of a fixed corpus are tokenized into lowercase words (`clean`), and
each is turned into a bag of words (`vectorize`). The documents are scored
against the question by cosine similarity (`cosine_similarity`), then sorted
by descending score with a stable sort, and the first `k` are kept
(`retrieve_top_k`). From those, a rule-based answer is assembled
(`generate_answer`). It lists the first two period-delimited sentences of
each retrieved document, a fixed explanation, and one citation per document.
`rag_answer` returns a fixed apology instead when every retrieved score is
zero.

The Dafny modules follow the stages of the pipeline:

- `Builtins` covers the Python built-ins the pipeline relies on:
  - `str.isspace`, `split()`, `split(sep)`, `strip()` and `join`;
  - the slice `xs[:k]`, including negative `k`.
- `Tokenizer` is `clean`. Its contract is proved in both directions: the
  tokens are exactly the maximal runs of letters of the lowercased text.
- `BagOfWords` is `vectorize`, i.e. `Counter`, together with the sums the
  similarity takes. It includes a proof that sums are invariant under
  permutation.
- `Similarity` is `cosine_similarity`. A score keeps `dot`, `|v1|²` and
  `|v2|²` as exact integers. Scores are ordered by the exact square of the
  cosine, which orders them as the exact (real-valued) cosine does; the
  rounded float the program computes can order them differently, as
  "## Left out" explains. The `[0, 1]` range of the exact cosine follows
  from Cauchy–Schwarz, proved on integers.
- `Retrieval` is `retrieve_top_k`:
  - a loop scores the corpus;
  - an in-place insertion sort on an array is proved equal to a stable
    descending sort function;
  - that function is proved sorted, a permutation and stable, and is
    characterised uniquely by those properties;
  - the slice `[:k]` comes last.
- `Answer` is `generate_answer` and `rag_answer`. The collecting loop is
  proved equal to the functions that define its results. There are layout lemmas about the
  assembled text, and the fallback holds exactly when no retrieved document
  shares a word with the question.

The corpus, which the source holds as a global literal, is a parameter
`corpus: seq<Document>`. The two-decimal rendering of a score inside a
citation is a parameter `render: Score -> string`.

## Model

| member | source | states |
|---|---|---|
| Builtins.IsSpace | RAG_10thstd.py:64 | the code points Python's `str.isspace` accepts, which `split()` and `strip()` treat as whitespace |
| Builtins.SplitWhitespace | RAG_10thstd.py:64 | `split()` yields non-empty words without whitespace |
| Builtins.Strip | RAG_10thstd.py:143 | `strip()` is the contiguous slice of `s` left after removing the leading and trailing whitespace; its result neither starts nor ends with whitespace |
| Builtins.SplitOn | RAG_10thstd.py:143 | `split(".")` yields one or more pieces, none containing the separator |
| Builtins.JoinSplitOn | RAG_10thstd.py:143 | joining the pieces of `split(sep)` with `sep` gives back the text |
| Builtins.SplitOnJoin | RAG_10thstd.py:154 | splitting a `sep.join` of separator-free parts gives back the parts |
| Builtins.Join | RAG_10thstd.py:152-155 | `sep.join(xs)`: the elements in order with `sep` between neighbours, empty for no elements |
| Builtins.Prefix | RAG_10thstd.py:122 | `xs[:k]` is a prefix of `xs` of length `min(k, n)` for `k >= 0`, and `max(n + k, 0)` for `k < 0` |
| Tokenizer.Lower | RAG_10thstd.py:60 | `text.lower()`: each ASCII capital replaced by its small letter, every other character kept, length unchanged |
| Tokenizer.ReplaceNonLetters | RAG_10thstd.py:62 | `re.sub(r"[^a-z]", " ", text)`: each character outside `a`..`z` replaced by a space, the letters kept |
| Tokenizer.DropEmpty | RAG_10thstd.py:64 | the comprehension `[t for t in ... if t]`: the non-empty tokens, in order |
| Tokenizer.Clean | RAG_10thstd.py:53-67 | `clean(text)`: lowercase, replace the non-letters, split on whitespace and drop the empty tokens |
| Tokenizer.CleanTokens | RAG_10thstd.py:53-67 | every token is non-empty over `a`..`z`; the tokens are the maximal runs of letters of the lowercased text, left to right; `clean("")` is empty |
| Tokenizer.CleanIsUnique | RAG_10thstd.py:60-64 | any cut of the lowercased text into maximal letter runs and gaps yields exactly `clean`'s tokens |
| Tokenizer.RunsAreMaximalRuns | RAG_10thstd.py:62-64 | replacing non-letters by spaces and splitting yields a cut of the text into maximal letter runs |
| Tokenizer.MaximalRunsAreRuns | RAG_10thstd.py:62-64 | conversely, every such cut is the one the replace-and-split yields |
| Tokenizer.CleanExample | RAG_10thstd.py:60-64 | `clean("Orbit, 2 suns!") == ["orbit", "suns"]`: case is folded, digits and punctuation only separate |
| BagOfWords.Vectorize | RAG_10thstd.py:72-79 | the counter's keys are exactly the tokens, each listed once; each word's count is its number of occurrences; counts are positive |
| BagOfWords.VectorizeTotal | RAG_10thstd.py:72-79 | the counts add up to the number of tokens |
| BagOfWords.VectorizeExample | RAG_10thstd.py:76 | `["sun", "gravity", "sun"]` gives `sun: 2`, `gravity: 1` and no other key |
| BagOfWords.SumPermutation | RAG_10thstd.py:92-96 | a sum over a sequence does not depend on the order of its terms |
| Similarity.IsZero | RAG_10thstd.py:97-98 | the guarded `0.0` of a zero magnitude, or a zero dot product over positive magnitudes: the test `score == 0.0` |
| Similarity.SquaredValue | RAG_10thstd.py:99 | the square `dot² / (|v1|² · |v2|²)` of the exact cosine, and `0` for the guarded case |
| Similarity.CommonKeys | RAG_10thstd.py:92 | `v1.keys() & v2.keys()` holds exactly the words present in both vectors, none more often than `v1` lists it |
| Similarity.Dot | RAG_10thstd.py:92 | the sum of `v1[w] * v2[w]` over the shared words |
| Similarity.MagnitudeSquared | RAG_10thstd.py:95-96 | the sum of the squared counts, i.e. the square of `mag` |
| Similarity.DotSymmetric | RAG_10thstd.py:92 | the dot product is symmetric in `v1` and `v2` |
| Similarity.DotZeroIffDisjoint | RAG_10thstd.py:92 | the dot product is zero if and only if the key sets are disjoint |
| Similarity.MagnitudeZeroIffEmpty | RAG_10thstd.py:95-97 | a squared magnitude is zero if and only if the vector is empty |
| Similarity.CauchySchwarz | RAG_10thstd.py:86-99 | `dot² <= |v1|² · |v2|²` on the integer counts |
| Similarity.CosineSimilarity | RAG_10thstd.py:84-99 | the score is zero if and only if the dot product or a magnitude is zero; the square of the exact cosine lies in `[0, 1]` |
| Similarity.ZeroIffKeyZero | RAG_10thstd.py:97-99 | the sort key of a score is never negative and is zero exactly for a zero score |
| Similarity.SimilaritySymmetric | RAG_10thstd.py:84-99 | the similarity is symmetric |
| Similarity.SimilarityWithItself | RAG_10thstd.py:84-99 | the exact cosine of a non-empty vector with itself is 1 |
| Retrieval.Key | RAG_10thstd.py:120 | the sort key `x[0]`, compared through the square of the exact cosine |
| Retrieval.ScoreOf | RAG_10thstd.py:116-117 | the score of one document: `cosine_similarity(q_vec, vectorize(clean(doc["text"])))` |
| Retrieval.ScoreAll | RAG_10thstd.py:113-118 | the list `scored` before sorting: one `(score, doc)` pair per document, in corpus order |
| Retrieval.ScoreCorpus | RAG_10thstd.py:113-118 | the loop produces one `(score, doc)` pair per document, in corpus order |
| Retrieval.StableSortDesc | RAG_10thstd.py:120 | the sort's result is non-increasing in score |
| Retrieval.StableSortPermutation | RAG_10thstd.py:120 | the sort's result is a permutation of its input |
| Retrieval.StableSortStable | RAG_10thstd.py:120 | entries of equal score keep their relative order |
| Retrieval.StableSortCharacterized | RAG_10thstd.py:120 | a list is the sort's result if and only if it is sorted and keeps every group of equal scores in input order |
| Retrieval.SortDesc | RAG_10thstd.py:120 | sorting the array in place leaves it holding the stable descending sort of its old contents |
| Retrieval.InsertAt | RAG_10thstd.py:120 | one round of the in-place insertion sort: the first `i + 1` cells end holding the old entry `a[i]` inserted into the sorted prefix after every entry whose key is at least its own, and the cells after `i` are unchanged |
| Retrieval.TopK | RAG_10thstd.py:104-122 | what `retrieve_top_k(question, k)` returns: the Python slice `[:k]` of the stable descending sort of the scored corpus |
| Retrieval.RetrieveTopK | RAG_10thstd.py:104-122 | `retrieve_top_k` returns the first `k` (Python slice) of the stably sorted scored corpus |
| Retrieval.TopKLength | RAG_10thstd.py:122 | `min(k, n)` entries for `k >= 0` (none for `k = 0`); `max(n + k, 0)` for negative `k` |
| Retrieval.TopKSorted | RAG_10thstd.py:119-122 | the returned scores are non-increasing |
| Retrieval.TopKDominates | RAG_10thstd.py:119-122 | the result is a sub-multiset of the scored corpus, and each returned entry scores at least as high as each one left out |
| Retrieval.TopKPrefersEarlier | RAG_10thstd.py:119-122 | among equal scores, the returned entries are the earliest ones in corpus order |
| Retrieval.ZeroScoreIffNoSharedWord | RAG_10thstd.py:111-117 | a document scores zero if and only if it shares no word with the question |
| Answer.Fragments | RAG_10thstd.py:143 | `raw_sentences`: the text cut at every period, each piece stripped, the empty ones dropped |
| Answer.Pick | RAG_10thstd.py:145 | `pick`: the slice `raw_sentences[:2]` |
| Answer.FragmentsShape | RAG_10thstd.py:143 | every raw sentence is non-empty, stripped and free of periods |
| Answer.FragmentsOfJoin | RAG_10thstd.py:143 | fragments joined by periods are cut back into the same fragments |
| Answer.PickShape | RAG_10thstd.py:145 | the pick is the first two raw sentences, or all of them when there are fewer |
| Answer.Sentences | RAG_10thstd.py:136-146 | `sentences` after the loop: each retrieved document's pick, in ranked order |
| Answer.Citation | RAG_10thstd.py:141 | one citation: the title, ` (score=`, the rendered score and `)` |
| Answer.Citations | RAG_10thstd.py:137-141 | `sources` after the loop: one citation per retrieved pair, in ranked order |
| Answer.Collect | RAG_10thstd.py:136-146 | the loop gathers each document's pick and one citation per pair, in ranked order |
| Answer.SentencesShape | RAG_10thstd.py:138-146 | all documents together contribute at most two sentences each, each a fragment |
| Answer.SentencesAppend | RAG_10thstd.py:138-146 | the sentences of consecutive runs of documents are consecutive: ranked order is kept |
| Answer.SourceBlock | RAG_10thstd.py:154 | the source lines: each citation prefixed with ` • `, joined by line breaks |
| Answer.Parts | RAG_10thstd.py:149-154 | the list `answer`: the header, ` - ` and the sentences joined by line break and ` - `, the rationale, and `Sources:` with the marked citations |
| Answer.AnswerText | RAG_10thstd.py:149-155 | what `generate_answer` returns: the four parts concatenated |
| Answer.GenerateAnswer | RAG_10thstd.py:127-155 | `generate_answer` returns the header, bullets, rationale and sources joined |
| Answer.AnswerLayout | RAG_10thstd.py:149-155 | the answer is the header, then the bullet list, then the rationale, then the sources heading and block, with nothing in between |
| Answer.AnswerStartsWithHeader | RAG_10thstd.py:150-155 | the answer begins with the fixed header |
| Answer.AnswerEndsWithSources | RAG_10thstd.py:153-155 | the answer ends with the rationale, the sources heading and the source block |
| Answer.SourceLines | RAG_10thstd.py:141-154 | for a non-empty list whose titles and rendered scores have no line break, the source block has one line ` • title (score=…)` per pair, in ranked order |
| Answer.AnswerIsNotFallback | RAG_10thstd.py:150-172 | a generated answer never equals the fallback text |
| Answer.AllZero | RAG_10thstd.py:171 | `all(score == 0.0 for ...)`: every retrieved score is zero, true for an empty list |
| Answer.RagText | RAG_10thstd.py:160-173 | what `rag_answer(question, k)` returns: the fallback when every retrieved score is zero, else the generated answer for the top `k` |
| Answer.RagAnswer | RAG_10thstd.py:160-173 | `rag_answer` returns the fallback when every retrieved score is zero, else the generated answer |
| Answer.FallbackIffAllZero | RAG_10thstd.py:171-173 | the fallback is returned if and only if every retrieved score is zero, which includes an empty retrieval |
| Answer.TopKFromCorpus | RAG_10thstd.py:113-122 | every retrieved pair is a corpus document with its own score |
| Answer.FallbackIffNoSharedWord | RAG_10thstd.py:167-173 | the fallback is returned if and only if no retrieved document shares a word with the question |
| Answer.AnswersWhenSomeDocumentMatches | RAG_10thstd.py:167-173 | with `k >= 1`, if any corpus document shares a word with the question, the answer is not the fallback |
| Answer.NoWordsFallback | RAG_10thstd.py:171-172 | a question without any word gets the fallback |

## Left out

- The `print` calls inside the core functions are left out. They are debug output with no effect on results.
- The interactive `__main__` block and `example_questions.py` are not part of this model. They are console I/O and menu glue around `rag_answer`.
- The document texts of the corpus literal are not modelled. The corpus is a parameter.
- The defaults `k = 2` are not modelled. Callers pass `k`.
- The floating-point value of the cosine is not computed: neither `math.sqrt` nor the float division is modelled. A score keeps the exact integers, and scores are compared by the exact squared cosine. The ranking therefore follows the exact cosines, and may differ from the program's ranking by float rounding in both directions:
  - two documents whose float scores round to the same value but whose exact cosines differ are ordered by the exact values, where the program keeps them in corpus order;
  - two documents whose exact cosines are equal but whose float scores differ keep their corpus order in the model, where the program orders them by the floats. For the question `"sun"` and the documents `"sun sun sun x x x y y y"` then `"sun x y"`, both exact cosines are `1/√3`, but the program's `3/√27` and `1/√3` round to different doubles, the second one larger, so with `k = 1` the program returns the second document where the model returns the first.
- `Similarity.CosineSimilarity` states the `[0, 1]` range for the square of the exact cosine, since the float itself is not modelled. The docstring at `RAG_10thstd.py:88` promises the range for the float, and rounding can break it: three unit counts give `3 / (√3 · √3)`, which rounds to slightly above 1.
- `Similarity.SimilarityWithItself` proves that the exact cosine of a vector with itself is 1. The program's float can differ from 1 by rounding: `{"a": 1, "b": 1}` gives `2 / (√2 · √2)`, slightly below 1.
- The `{score:.2f}` formatting of a citation is the parameter `render`.
- `str.lower()` is modelled on ASCII `A`..`Z` only. Every other character outside `a`..`z` becomes a separator. The few non-ASCII characters that full Unicode lowercasing maps into `a`..`z` (such as the Kelvin sign) are not folded.
- `str.strip()` and `str.split()` use Python's `str.isspace` set of code points. Unicode normalisation is not modelled.
- `re.sub(r"[^a-z]", " ", text)` is modelled as a per-character replacement, which is what that pattern does.
- `list.sort` (Timsort) is modelled as an in-place stable insertion sort. Any stable sort yields the same list, as `Retrieval.StableSortCharacterized` shows.
- For `k <= 0`, the model follows the slice `scored[:k]` exactly. It takes nothing for `k = 0` and drops the last `|k|` entries for negative `k`; it does not return an empty list for every `k <= 0`.
- The corpus is a value, so not mutating it holds by construction.
