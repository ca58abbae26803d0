# TF-IDF movie search: a Dafny model of its core

The repository is a small movie search engine. Each movie's text is its title and
genres, and is turned into a sparse TF-IDF weight map. Those maps are stored in a
vector database as dense vectors over a word list. The main search path turns the
query into a dense vector the same way (`dict_to_vector`) and runs the database's
own nearest-neighbour search. A fallback path ranks the stored maps directly by
cosine similarity (`ranking` in `tfidf.py`).

This project models:

- the pure pipeline in `tfidf.py`:
  - tokenising, per-document word counts and term frequencies;
  - the corpus inverse-document-frequency table and TF-IDF weighting;
  - cosine similarity and the top-k ranking;
- the vector helpers in `milvus_config.py`:
  - sparse map to dense vector, in both the plain and the index-map variant;
  - dense vector back to a sparse map;
  - the word-to-position map and the `nlist` sizing rule of the index;
- the build-time composition `generate_vectors` in `db.py`.

## Modules

- `Results` (`results.dfy`): the `Result` type and the two Python exceptions the core can raise.
  - `ZeroDivisionError` comes from `compute_tf_single`.
  - `IndexError` comes from `dict_to_vector_optimized`.
- `Numerics` (`numerics.dfy`):
  - `Sum` of a map's values, with its lemmas.
  - The laws assumed of the host's `math.log` and `math.sqrt`. Both appear in the model only as function parameters (`ln`, `sqrt`).
- `Tokenizer` (`tokenizer.dfy`): `create_tokens_single`.
  - This covers lower-casing, removing every character that is neither a word character nor whitespace, collapsing whitespace runs, trimming and splitting.
  - Python's Unicode character classes (`str.lower`, `\w`, `\s`) are a parameter `cc: CharClasses`. `Lawful(cc)` says only that the ASCII space counts as whitespace.
- `Tfidf` (`tfidf.dfy`): word counts, term frequencies, document frequencies, the IDF table and TF-IDF weighting.
- `Ranking` (`ranking.dfy`):
  - The dot product, norms and cosine similarity.
  - The ranking: Python's stable `list.sort(key=score, reverse=True)` is modelled by an insertion sort. `Ranking.RankedUnique` shows that any stable descending sort gives the same list.
  - `scores[:top_k]` follows Python slice semantics.
- `MilvusConfig` (`milvus_config.dfy`): the vector helpers and `nlist`.
  - The iteration order of a Python dict is a parameter `order`. The lemmas show that the plain conversion does not depend on it.
- `Db` (`db.dfy`): `generate_vectors` over a dataset passed in as a sequence of strings.

Three behaviours of the code differ from what one might expect, and the model follows the code:

- `compute_tf_single` on a non-empty count map whose total is zero raises `ZeroDivisionError` (tfidf.py:27-29) rather than returning an empty map. This cannot happen for counts built from tokens (`Tfidf.TfOfCountsSucceeds`). An empty count map gives an empty result without error.
- A negative `top_k` is a Python slice bound (tfidf.py:77). It drops that many entries from the end rather than giving an empty result. `top_k == 0` gives the empty list.
- The word list for the dense vectors is whatever list the caller passes. Neither helper sorts or de-duplicates it.

## Model

| member | source | states |
|---|---|---|
| Tokenizer.CreateTokensSingle | tfidf.py:5-9 | Every token is non-empty and free of whitespace. Under a lawful character table, every character of every token is a word character obtained by lower-casing a character of the document. A document without word characters has no tokens. |
| Tokenizer.TokensIgnoreWhitespaceLayout | tfidf.py:8-9 | Collapsing whitespace runs and stripping before `split()` changes nothing: the tokens are exactly the whitespace-split of the lower-cased, punctuation-free text. |
| Tokenizer.TokensSpellWordChars | tfidf.py:6-9 | Concatenated, the tokens spell the word characters of the lower-cased document, in order: nothing is lost, added or reordered. |
| Tfidf.CountTokens | tfidf.py:13-15 | The counting loop yields a map whose keys are exactly the distinct tokens, and whose value for each word is its number of occurrences (multiset count). |
| Tfidf.CountsTotal | tfidf.py:13-15 | The counts of a token list add up to the number of tokens. |
| Tfidf.CreateVocabSingle | tfidf.py:11-16 | The keys are the document's tokens. Every count is at least 1. The counts add up to the number of tokens. |
| Tfidf.CreateVocabAll | tfidf.py:18-23 | One count map per document, in corpus order, each that document's `create_vocab_single`. |
| Tfidf.ComputeTfSingle | tfidf.py:25-30 | Fails, with ZeroDivisionError, exactly when the map is non-empty and its total is zero. Otherwise it keeps the keys, gives each word its count divided by the total, and the frequencies of a non-empty map sum to 1. |
| Tfidf.TfPositive | tfidf.py:25-30 | Positive counts give a successful result with every term frequency strictly positive. |
| Tfidf.ComputeTfAll | tfidf.py:32-36 | Succeeds exactly when every document's term frequency does (otherwise ZeroDivisionError). On success: one map per document, each that document's `compute_tf_single`. |
| Tfidf.TfOfCountsSucceeds | tfidf.py:32-36 | Term frequencies of counts produced by `create_vocab_all` never raise. |
| Tfidf.DocFreq | tfidf.py:41-44 | The counting loop over per-document word sets gives a map whose keys are exactly the words occurring in some document. Each word's value is the number of documents containing it, between 1 and the number of documents. |
| Tfidf.CorpusDocFreq | tfidf.py:41-44 | Applied to the documents' token sets, the loop counts, for each corpus word, the documents whose tokens contain it. |
| Tfidf.ComputeIdfSingle | tfidf.py:38-47 | Keys are exactly the words of the corpus. Each value is `ln(1 + N/df)` for that word's document frequency df, with 1 <= df <= N. Under the logarithm laws every IDF is strictly positive. |
| Tfidf.IdfPositive | tfidf.py:45-46 | `log(1 + N/df)` is strictly positive for 1 <= df <= N. |
| Tfidf.IdfAntitone | tfidf.py:45-46 | A word found in more documents never gets a larger IDF. |
| Tfidf.ComputeTfidfSingle | tfidf.py:59-60 | Keys are the term-frequency keys. A word missing from the IDF table weighs 0. Otherwise the weight is tf times idf: non-negative for non-negative inputs and positive for positive inputs. |
| Tfidf.ComputeTfidfAll | tfidf.py:49-57 | One weighted map per document, each equal to the single-document weighting with the same IDF table. |
| Db.GenerateVectors | db.py:55-61 | Returns the dataset unchanged, with one weight map per document whose keys are exactly that document's tokens. |
| Db.GeneratedWeights | db.py:55-61 | Every stored word is in the IDF table, so the `get(word, 0.0)` default never applies at build time. Under the logarithm laws every stored weight is strictly positive. |
| Ranking.CosineSimilarity | tfidf.py:62-69 | A zero norm on either side gives 0. Otherwise the result times the product of the norms is the dot product over the common words. |
| Ranking.CosineSymmetric | tfidf.py:62-69 | The similarity does not depend on the order of its arguments. |
| Ranking.CosineNonNegative | tfidf.py:62-69 | Maps with non-negative weights have non-negative similarity. |
| Ranking.CosineDisjoint | tfidf.py:63-64 | Two maps without a common word have dot product 0 and similarity 0. |
| Ranking.CosineOfZeroMap | tfidf.py:65-68 | A map whose weights are all zero (the empty map included) has similarity 0 with anything, on either side. |
| Ranking.NormOfZeroMap | tfidf.py:65-66 | The sum of squares is never negative, and it is 0 for an all-zero map. |
| Ranking.CosineSelf | tfidf.py:62-69 | A map of non-zero squared norm has similarity exactly 1 with itself. |
| Ranking.SortDesc | tfidf.py:76 | The sort returns a permutation of its input (same length, same multiset). |
| Ranking.InsertRanked | tfidf.py:76 | Inserting an entry whose position precedes every entry of a ranked list keeps the list ranked: ties stay in their original order. |
| Ranking.SortRanked | tfidf.py:76 | Sorting a list whose positions ascend gives a list ordered by descending score, with ties in ascending position: a stable descending sort. |
| Ranking.RankedUnique | tfidf.py:76 | Two ranked permutations of the same entries are equal, so every stable descending sort agrees with the modelled one. |
| Ranking.SliceTo | tfidf.py:77 | Python's `s[:k]` is a prefix of length `min(k, len)` for k >= 0 and `max(0, len + k)` for negative k. |
| Ranking.Scores | tfidf.py:72-75 | One entry per document, in corpus order: entry i pairs index i with document i's cosine similarity to the query. |
| Ranking.Ranking | tfidf.py:71-77 | The ranking has the length of the `top_k` slice of the corpus. |
| Ranking.RankingScores | tfidf.py:72-75 | Every entry names an existing document and carries that document's similarity to the query. |
| Ranking.RankingOrdered | tfidf.py:76-77 | The result is ranked: scores never increase, ties keep corpus order, and no document appears twice. |
| Ranking.RankingOmitted | tfidf.py:76-77 | A document left out of a non-empty result ranks after its last entry, and scores no higher than that entry. |
| MilvusConfig.IndexOf | milvus_config.py:80 | `list.index` returns the first position holding the word. |
| MilvusConfig.DictToVector | milvus_config.py:72-83 | One slot per listed word. Keys are visited in `order`, and each listed key's value is written at the key's first position. The contents are given in closed form by `MilvusConfig.DictToVectorSpec`. |
| MilvusConfig.DictToVectorPlaces | milvus_config.py:72-83 | For any duplicate-free visiting order of some of the keys, position i holds `d[words[i]]` when that word was visited and i is its first position in the list, and 0 otherwise. |
| MilvusConfig.DictToVectorSpec | milvus_config.py:72-83 | Position i holds `d[words[i]]` when that word is in the map and i is its first occurrence in the word list; every other position holds 0. |
| MilvusConfig.DictToVectorOrderFree | milvus_config.py:78 | The vector does not depend on the order in which the map's items are visited. |
| MilvusConfig.DictToVectorOptimized | milvus_config.py:85-93 | The vector has one slot per mapped word. The call fails with IndexError exactly when some visited, mapped key has an index outside numpy's valid range `[-n, n)`. |
| MilvusConfig.DictToVectorOptimizedPlaces | milvus_config.py:85-93 | With in-range, non-colliding indices, each visited mapped key's value lands at its (negative-wrapped) index, and every untargeted slot stays 0. |
| MilvusConfig.WordToIdx | milvus_config.py:99-101 | Keys are exactly the listed words. Each maps to the LAST position holding it, because a later duplicate overwrites the earlier entry in the comprehension. |
| MilvusConfig.WordToIdxDistinct | milvus_config.py:99-101 | For a duplicate-free list, the map sends the i-th word to i and has as many entries as the list. |
| MilvusConfig.OptimizedAgrees | milvus_config.py:72-101 | For a duplicate-free word list, the index-map conversion with `create_word_to_idx_mapping` succeeds and equals the plain conversion. |
| MilvusConfig.DuplicateWordsMapping | milvus_config.py:99-101 | For the list `a, a, b`, the mapping is `{a: 1, b: 2}`: two entries pointing past the first. |
| MilvusConfig.DuplicateWordsOverflow | milvus_config.py:85-93 | With that mapping the index-map conversion builds a 2-slot vector and index 2 raises IndexError. |
| MilvusConfig.DuplicateWordsPlain | milvus_config.py:72-83 | The plain conversion on the same list gives `[0, 0, 1]`, so the two helpers disagree when words repeat. |
| MilvusConfig.VectorToDict | milvus_config.py:95-97 | Keys are words whose zipped value exceeds the threshold. A word is kept exactly when some position holding it has such a value, and it gets the value of the last such position. Zipping stops at the shorter input. |
| MilvusConfig.LastKept | milvus_config.py:97 | Finds the last zipped position holding the word with a value above the threshold. No later position holding the word passes the threshold. |
| MilvusConfig.VectorToDictUpTo | milvus_config.py:97 | The comprehension over the first n zipped pairs keeps, for each word, the value at its last position above the threshold. |
| MilvusConfig.RoundTrip | milvus_config.py:72-97 | For any word list, repeats included, and any threshold t >= 0, converting to a vector and back gives exactly the entries of the original map that are listed and above t. |
| MilvusConfig.RoundTripDefault | milvus_config.py:72-97 | For any word list and the default threshold 1e-8, the round trip keeps exactly the listed entries above 1e-8: smaller positive weights are dropped. |
| MilvusConfig.RoundTripKept | milvus_config.py:72-97 | For any word list and a threshold t >= 0, every entry surviving the round trip is a listed entry of the original map above t, with its original value. |
| MilvusConfig.RoundTripComplete | milvus_config.py:72-97 | For any word list, every listed entry of the original map above the threshold survives the round trip. |
| MilvusConfig.Nlist | milvus_config.py:58 | `min(128, max(16, dim // 50))` lies in [16, 128]. It is 16 below 800 and 128 from 6400. In between it is the floor of dim / 50. |
| MilvusConfig.NlistMonotone | milvus_config.py:58 | A larger dimension never gives fewer clusters. |

## Left out

- SQLite reads and writes, the Milvus client calls (`connect_milvus`, collection creation, insertion, search), `db_manager.py` and the web front end in `app.py`: they are I/O. `generate_vectors` takes its dataset as a parameter instead of reading it.
- Floating point. Weights, frequencies and similarities are exact reals, and numpy's `float32` storage is not rounded. `math.log` and `math.sqrt` are parameters, constrained only by the laws in `Numerics` (`LnLaws`, `SqrtLaws`, `SqrtSquares`).
- Unicode details of `str.lower`, `\w` and `\s`: they are the `CharClasses` parameter. Only "the ASCII space is whitespace" is assumed of it.
- Python dicts keep insertion order; the model's maps do not. The visiting order is a parameter `order` only in `dict_to_vector` and `dict_to_vector_optimized` (milvus_config.py:78, 89), where a write could depend on it. The loops of tfidf.py (lines 28, 45, 53) write each key once, so with exact reals their results do not depend on the order.
- Sorting or de-duplicating the global vocabulary, and batching or retrying database inserts: the core files do not do them.
- Ranking.CosineSimilarity: no upper bound of 1 (Cauchy–Schwarz) is proved. The model shows non-negativity, symmetry, self-similarity 1 and the zero cases, but not the bound.
- Ranking.NormOfZeroMap: proves only that an all-zero map has squared norm 0, not the converse "norm 0 implies all weights are zero".
- Ranking.CosineSelf: requires a non-zero squared norm rather than "some weight is non-zero". Relating the two needs the converse just mentioned.
- MilvusConfig.RoundTrip: not stated for a negative threshold, where the zero slots of listed words missing from the map would also come back.
