# Parser chunks and tf-idf question answering, modelled in Dafny

The repository holds two small natural-language programs.

- **parser** turns a sentence into lower-case words (`preprocess`) and parses them with a context-free grammar. It then lists the *noun-phrase chunks* of each parse tree (`np_chunk`). A chunk is an `NP` subtree with no other `NP` subtree inside it.
- **questions** answers a query over a corpus. `compute_idfs` computes inverse document frequencies over word lists. `top_files` ranks files by tf-idf. `top_sentences` ranks the sentences of the best files by summed idf, breaking ties by query-term density.

The Dafny project models these functions and proves what they compute.

| file | module | models |
|---|---|---|
| `text.dfy` | `Text` | `" ".join(words)` and its length |
| `trees.dfy` | `Trees` | parse trees, `subtrees()` in pre-order, `leaves()`, phrase text, heights |
| `np_chunk.dfy` | `NpChunk` | `np_chunk` and its inner helpers; a corrected walk |
| `preprocess.dfy` | `Preprocess` | `preprocess`, `filter_word`, `is_word`, `str.split()` |
| `ranking.dfy` | `Ranking` | `sorted(score, key=score.get, reverse=True)[:n]` |
| `questions.dfy` | `Questions` | `compute_idfs`, `top_files`, `top_sentences` |

How the Python is represented:

- **`np_chunk` state.** Its closures share a result list and a text-keyed cache. Each helper takes that state as input and returns the new state.
- **Node comparison.** nltk compares trees by class, so `tree != subtree` in `recur` is always true once the walk has started. The first call therefore walks the root's children. Every later call walks a node's `subtrees()` list minus its first element, which is the node itself.
- **Dictionaries.** A dictionary from names to word lists becomes a sequence of `Doc`s with distinct names, in insertion order. Score dictionaries become Dafny `map`s.
- **Numbers and `log`.** Scores are `real`. `math.log` is the parameter `log` of `ComputeIdfs`.

## Model

| member | source | states |
|---|---|---|
| NpChunk.HasNPChildren | parser/parser.py:104-111 | The answer is true exactly when some `NP` node lies strictly below the node. The cache gains exactly that answer under the node's text. |
| NpChunk.Validate | parser/parser.py:113-117 | The node is appended exactly when it is a chunk. The cache changes only for `NP` nodes, which are recorded as "has an NP below" exactly when they are not chunks. |
| NpChunk.PhraseKey | parser/parser.py:101-102 | The cache key `get_phrase` names the words a subtree covers: when leaf words are non-empty and contain no whitespace, two subtrees have the same key if and only if they have the same leaf words. |
| NpChunk.Recur | parser/parser.py:119-126 | Keeps the shared-state invariant: every reported node is a chunk below the root, reported texts are distinct, and the cache says "no NP below" exactly for reported texts. It only appends. On `DistinctPhrases` trees, it appends the chunks of the walked pre-order list, skipping texts already reported. |
| NpChunk.Chunks | parser/parser.py:91-129 | Every reported node is a chunk strictly below the root, and the root is never reported. No text is reported twice, and no reported chunk lies inside another. On `DistinctPhrases` trees the result is exactly `ChunkSpec`. When in addition no subtree value occurs at two positions below the root (`NodesDistinct`), the result is every chunk strictly below the root, once per position, in pre-order. |
| NpChunk.ChunkSpecExact | parser/parser.py:92-96 | On `DistinctPhrases` trees, a tree value is in `ChunkSpec` if and only if it is a chunk strictly below the root, and no value is listed twice. It counts values, not positions. |
| NpChunk.ChunkSpecInPreOrder | parser/parser.py:119-126 | `ChunkSpec` lists its chunks as a subsequence of the depth-first, left-to-right list of chunks below the root. |
| NpChunk.ChunkTotality | parser/parser.py:92-96 | On `DistinctPhrases` trees, every `NP` value below the root is in `ChunkSpec` or has a value of `ChunkSpec` below it. |
| NpChunk.ChunkSpecByNode | parser/parser.py:92-96 | On `DistinctPhrases` trees with `NodesDistinct`, `ChunkSpec` is exactly the pre-order list of chunks strictly below the root, one entry per position. |
| NpChunk.CompareWalks | parser/parser.py:91-129 | On `DistinctPhrases` trees with `NodesDistinct`, the extractor as written and the walk by node return the same list. |
| NpChunk.OneTextOneReport | parser/parser.py:121-124 | When every `NP` below the root is the same subtree, at most one chunk is reported, however often that subtree occurs. |
| NpChunk.SameTextExample | parser/parser.py:121-124 | For "holmes sat and holmes smiled", the tree has two chunks and the extractor reports at most one. |
| NpChunk.ChunksByNode | parser/parser.py:91-97 | The corrected walk reports every chunk strictly below the root, once per node, in pre-order. A node is in the result if and only if it is such a chunk. |
| Preprocess.Words | parser/parser.py:86 | `sentence.split()` returns only non-empty words that contain no whitespace. |
| Preprocess.WordsOfJoin | parser/parser.py:86 | Splitting space-joined words returns exactly those words. |
| Preprocess.FilterWord | parser/parser.py:79-84 | `filter_word` keeps only lower-case letters. Its result is non-empty if and only if `is_word` holds. |
| Preprocess.FilterWords | parser/parser.py:86 | Keeps at most one token per word, and each token is a non-empty lower-case word. |
| Preprocess.Preprocess | parser/parser.py:70-88 | Every token is a non-empty word of lower-case letters. |
| Preprocess.FilterLowerWord | parser/parser.py:79-80 | A word of lower-case letters passes `filter_word` unchanged. |
| Preprocess.PreprocessIdempotent | parser/parser.py:70-88 | Preprocessing its own space-joined output returns that output. |
| Preprocess.PreprocessIgnoresCase | parser/parser.py:70-88 | Lower-casing the sentence first does not change the result. |
| Ranking.Slice | questions/questions.py:127 | `xs[:n]` is a prefix of length `min(n, len(xs))` for `n >= 0`. For negative `n` its length is `max(0, len(xs) + n)`. |
| Ranking.TopN | questions/questions.py:127 | The ranking has `min(n, len)` entries for `n >= 0` and `max(0, len + n)` for negative `n`. Every entry is a key of the score dictionary. Order and exclusion are stated by `TopNSpec`. |
| Ranking.SortDesc | questions/questions.py:127 | The sorted list is a permutation of the keys. |
| Ranking.SortDescSorted | questions/questions.py:127 | The sorted list is in non-increasing key order. |
| Ranking.SortDescStable | questions/questions.py:127 | The sort is stable: an entry goes before every later entry whose key is not above its own. |
| Ranking.PermutationDistinct | questions/questions.py:127 | Sorting keys that have no repeats produces no repeats. |
| Ranking.TopNSpec | questions/questions.py:127 | `IsTopN`: the top `n` has `min(n, len)` entries, all drawn from the input, with no repeats, in non-increasing key order. No entry left out ranks above an entry kept. |
| Questions.DocsContainingMember | questions/questions.py:91-96 | A name is listed for a word if and only if that document contains the word. |
| Questions.DocFrequency | questions/questions.py:91-96 | The document frequency is at most the number of documents. It is non-zero if and only if the word occurs, and equal to the number of documents if and only if every document contains the word. |
| Questions.DocsContainingDistinct | questions/questions.py:95-96 | No document is listed twice for a word. |
| Questions.IdfRatio | questions/questions.py:97-98 | The ratio whose logarithm is the idf is at least 1. It is exactly 1 for a word in every document. |
| Questions.IdfsFromCounts | questions/questions.py:97-98 | Each word with a non-empty list of documents gets exactly one idf: the log of the number of documents over the list's length. |
| Questions.ComputeIdfs | questions/questions.py:81-99 | Exactly the words that occur in some document get an idf, namely `log(N / document frequency)`. |
| Questions.Sum | questions/questions.py:125 | `sum` over a set of words is the sum of the terms. |
| Questions.SetSumRemove | questions/questions.py:125 | A set sum is any one element's term plus the sum of the rest. |
| Questions.SetSumNonNegative | questions/questions.py:151 | A sum of non-negative terms is non-negative. |
| Questions.CountAbsent | questions/questions.py:116-122 | A word's count is 0 exactly when the word is absent. |
| Questions.ScoreFile | questions/questions.py:114-125 | A file's score is, summed over the query words it contains that have an idf, the idf times the number of occurrences. |
| Questions.FileScoreByOccurrence | questions/questions.py:114-125 | The tf-idf score equals the sum, over the file's word occurrences, of the idf of each query word. |
| Questions.FileScoresAt | questions/questions.py:113-125 | The score dictionary has exactly the files as keys, each with its own tf-idf score. |
| Questions.TopFiles | questions/questions.py:102-129 | Returns the stable descending tf-idf ranking, cut to `n` (`IsTopN`). It has `min(n, len(files))` distinct file names in non-increasing score order. No file left out scores higher than a file kept. |
| Questions.ScoreSentence | questions/questions.py:148-154 | A sentence's key is (sum of the idfs of its query words that have one, query-term density). |
| Questions.DensityBounds | questions/questions.py:152 | Density lies in [0, 1]. It is 1 if and only if every word is a query word, and 0 if and only if no word is. |
| Questions.IdfSumNonNegative | questions/questions.py:151 | With non-negative idfs, the idf sum is non-negative. |
| Questions.CommonWords | questions/questions.py:152 | A sentence has at most as many query words as words, and exactly as many if and only if all its words are query words. |
| Questions.SentenceScoresAt | questions/questions.py:146-154 | The score dictionary holds each sentence's own key. |
| Questions.TopSentences | questions/questions.py:132-158 | Returns the stable descending ranking by (idf sum, density), compared as Python compares pairs, cut to `n` (`IsTopN`). It has `min(n, len(sentences))` distinct sentences, and `[]` when there are none. Among equal idf sums the higher density comes first, and nothing left out ranks above a sentence kept. |

## Left out

- Parsing with nltk's chart parser and the grammar (parser/parser.py:4-33, `main`). Parse trees are inputs.
- `main` in both programs, `load_files` and printing. These are file and console I/O.
- `tokenize` (nltk word tokenizer and stopword list). `TopSentences` takes it as a parameter. Its results must be non-empty for every sentence, because the source divides by their number and `main` stores only sentences with tokens.
- `math.log` and floating point. Scores are exact reals, so rounding and the order of float summation are not modelled. Ties are exact ties.
- Unicode. `str.isalpha`, `str.lower` and `str.split()` are modelled over ASCII only.
- NpChunk.Chunks: requires every child of the root to be an internal node. On a bare word child, the source fails when it asks that word for its leaves.
- NpChunk.Chunks: the exact result list is stated only for `DistinctPhrases` trees. These are well-formed trees (every node has a child, every word is non-empty) in which any two subtree values below the root with equal text are nested. The predicate compares values, so equal subtrees in sibling positions meet it, as the two "holmes" noun phrases of the Findings tree do. On other trees only safety is stated: reported nodes are chunks, texts are distinct, and no chunk lies inside another. "Every chunk, once per position" is stated only when `NodesDistinct` holds as well.
- NpChunk.Recur: the same restriction applies to its exact result.
- NpChunk.ChunkSpecInPreOrder: the order is proved of `ChunkSpec`. That list is the extractor's output only on `DistinctPhrases` trees. On other trees the order of the output is not stated.
- NpChunk.ChunkSpecExact: counts chunk values, not positions. On a `DistinctPhrases` tree with two equal chunk subtrees, it holds although only one of them is reported. `NpChunk.ChunkSpecByNode` counts positions, under `NodesDistinct`.
- NpChunk.ChunkTotality: counts values in the same way. An `NP` subtree counts as covered when an equal chunk value was reported at another position.
- NpChunk.HasNPChildren: omits the `if not children` branch (parser/parser.py:106-108). `subtrees()` always starts with the node itself, so that branch is never taken.
- Questions.ComputeIdfs: iteration order of the resulting dictionary is not modelled, because no caller depends on it.
- Questions.TopSentences: ignores the sentence dictionary's word lists. The source ignores them too and re-tokenizes each sentence's text.

## Findings

| source | as written | input that shows it | evidently intended | confidence | as-written member | corrected member |
|---|---|---|---|---|---|---|
| parser/parser.py:121-124 | The walk skips any node whose text is cached as "no NP below". After a chunk is reported its text is cached that way, so a second chunk with the same text is never reported. | "holmes sat and holmes smiled", parsed `S -> S Conj S` with each clause `NP VP_OBJ` and NP "holmes". The tree has two chunks; at most one is reported. | Every noun-phrase chunk is reported (docstring, parser/parser.py:92-96), once per subtree. | medium; not executed | NpChunk.SameTextExample | NpChunk.ChunksByNode |
