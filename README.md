# A verified model of the retrieval core of RAG.py

RAG.py is a small retrieval-augmented question-answering script. It reads a
PDF, cuts its text into paragraphs, embeds every paragraph once and caches
the vectors on disk under the file name. For a question, it ranks the
paragraphs by cosine similarity to the question's embedding and hands the
five best, joined by newlines, to a chat model as context. This project
models the four pieces of logic in that pipeline and proves their
properties in Dafny:

- **Segmenter** (`segmenter.dfy`, module `Segmenter`): `parse_file`. It is
  an imperative method with the source's nested loops, its buffer and its
  final flush. `Segment` is a reference definition: the maximal runs of
  non-blank stripped lines, each joined with single spaces. The method is
  proved to compute exactly that. The loop over the lines of one page is
  its own method, `ConsumeLines`, and its body is `ConsumeLine`, so that
  each proof stays small.
- **Embedding cache** (`cache.dfy`, module `EmbeddingCache`):
  `load_embeddings`, `save_embeddings` and `get_embeddings`. They are
  methods of a class `Store`. Its field `records` maps a file name to the
  stored list of vectors; this is the `embeddings/` directory. The embedding
  service is a function `embed(model, prompt)` fixed at construction. A
  ghost log `requests` records every call to the service, in order.
- **Ranking** (`ranking.dfy`, module `Ranking`): `find_most_similar`. The
  similarity scores are given as real numbers. The function pairs each score
  with its index and sorts the pairs in descending (score, index) order.
  `sorted` is modelled by an insertion sort. `SortedUnique` shows that only
  one descending arrangement exists, so the choice of sorting algorithm does
  not matter.
- **Context assembly** (`context.dfy`, module `Context`): RAG.py lines 81-83.
  It takes the top five entries (the `[:10]` re-slice changes nothing),
  looks up each entry's paragraph, and joins the paragraphs with `"\n"`.
- Shared helpers: `text.dfy` (Python's `str.isspace`/`str.strip`,
  `sep.join`, and a split on one character that undoes the join) and
  `options.dfy` (an `Option` type).

Three behaviours of the code are worth stating outright, because a reader
might expect otherwise:

- **Ties in the ranking.** `find_most_similar` sorts `(score, index)` tuples
  with `reverse=True`, so among equal scores the larger index comes first.
  There is no stable ascending-index tie-break. `RankOrder` and
  `RankTieExample` state this.
- **Cache writes and errors.** `save_embeddings` runs only after every chunk
  has been embedded, so a failing embedding call leaves no record. The file
  write itself is not atomic. Every error propagates as a plain exception.
- **Cache key.** The cache key is the file name alone. The chunks and the
  model name are not part of it. A hit is returned whatever the chunks are,
  even when their number differs from the stored list. Context assembly
  then fails with `IndexError` when one of the first five ranked indices
  has no paragraph. `BuildContext` returns `None` in that case.

## Model

| member | source | states |
|---|---|---|
| `Text.IsSpace` | RAG.py:17 | the characters Python's `str.isspace()` accepts, which are exactly the ones `strip()` removes: the ASCII space, `\t` to `\r`, the separators U+001C to U+001F, U+0085, U+00A0, U+1680, U+2000 to U+200A, U+2028, U+2029, U+202F, U+205F and U+3000 |
| `Text.Strip` | RAG.py:17 | `line.strip()` yields the piece of the line that starts after its leading whitespace and ends before its trailing whitespace (Python's `isspace` set). That piece neither starts nor ends with whitespace. It is empty exactly when the line is blank. |
| `Text.StripUnchanged` | RAG.py:17 | a line with no whitespace at either end is left as it is by `strip` |
| `Text.StripIdempotent` | RAG.py:17 | stripping an already stripped line changes nothing |
| `Text.Join` | RAG.py:21 | `sep.join(parts)` is empty for no parts and starts with the first part otherwise |
| `Text.JoinLength` | RAG.py:21 | a join is as long as all parts together plus one separator per gap |
| `Text.JoinEndsWithLast` | RAG.py:83 | a join ends with its last part, so there is no trailing separator |
| `Text.SplitJoin` | RAG.py:83 | splitting a `c`-join on `c` gives back the parts when no part contains `c` |
| `Text.JoinSplit` | RAG.py:83 | joining the pieces of a split on `c` with `c` gives back the string |
| `Segmenter.Flatten` | RAG.py:14-16 | the lines of all pages in document order: no pages give no lines |
| `Segmenter.FlattenAppend` | RAG.py:14-16 | flattening is concatenation: the lines of two runs of pages are the lines of the first followed by the lines of the second |
| `Segmenter.StripAll` | RAG.py:17 | `line.strip()` applied to each line, one stripped line per line |
| `Segmenter.StripAllBlank` | RAG.py:17-20 | a stripped line is empty exactly where the line is blank, so every stripped line is empty exactly when every line is blank |
| `Segmenter.Runs` | RAG.py:16-22 | the runs of non-blank lines are non-empty and hold only non-empty lines |
| `Segmenter.Paragraphs` | RAG.py:21 | one paragraph per run, the run joined with single spaces, and never empty |
| `Segmenter.Segment` | RAG.py:10-25 | no paragraph is empty |
| `Segmenter.RunsSnocBlank` | RAG.py:20 | a blank line adds nothing to the runs |
| `Segmenter.RunsSnocStart` | RAG.py:18-19 | a non-blank line at the start or after a blank line opens a new run |
| `Segmenter.RunsSnocExtend` | RAG.py:18-19 | a non-blank line after a non-blank line extends the last run |
| `Segmenter.ConsumeNonBlank` | RAG.py:18-19 | appending a stripped non-blank line to the buffer keeps "emitted runs plus buffer = runs of the lines seen" |
| `Segmenter.ConsumeBlank` | RAG.py:20-22 | a blank line emits a non-empty buffer as the next paragraph and empties it; with an empty buffer nothing happens |
| `Segmenter.ConsumeEnd` | RAG.py:23-24 | the final flush completes the paragraphs of everything seen |
| `Segmenter.ConsumeLine` | RAG.py:17-22 | one line: stripped, a non-blank line joins the buffer, a blank line emits a non-empty buffer as a space-joined paragraph and empties it; the loop state then covers that stripped line too |
| `Segmenter.ConsumeLines` | RAG.py:16-22 | the loop over one page's lines keeps that state across all of them, starting from the buffer left by earlier pages |
| `Segmenter.ParseFile` | RAG.py:10-25 | `parse_file` returns exactly `Segment(pages)`: one space-joined paragraph per maximal run of non-blank stripped lines over all pages' lines, in document order |
| `Segmenter.RunsConcat` | RAG.py:16-24 | the runs, laid end to end, are the non-blank lines in document order; nothing is lost, repeated or reordered |
| `Segmenter.RunsBlankSeparates` | RAG.py:20-22 | a blank line always separates runs: the runs of `a + [blank] + b` are the runs of `a` followed by the runs of `b` |
| `Segmenter.RunsEmpty` | RAG.py:18-22 | there are no runs exactly when every line is blank |
| `Segmenter.RunsSingle` | RAG.py:18-24 | without blank lines, one or more lines form a single run |
| `Segmenter.SegmentEmpty` | RAG.py:13-25 | the result is empty if and only if every line is blank. This covers the empty document and leading or repeated blank lines. |
| `Segmenter.SegmentSingle` | RAG.py:18-24 | a document with lines but no blank line gives exactly one paragraph, all its stripped lines space-joined |
| `Segmenter.SegmentIgnoresPages` | RAG.py:13-14 | page boundaries do not end a paragraph: the result depends only on the concatenated lines |
| `Segmenter.SegmentBlankLine` | RAG.py:20-22 | a blank line inside a page splits the result into the paragraphs before it and those after it |
| `Segmenter.SegmentExample` | RAG.py:10-25 | the page `["a", "b", "", "c"]` gives `["a b", "c"]` |
| `EmbeddingCache.Requests` | RAG.py:49-52 | the embedding requests for the chunks: one per chunk, in chunk order, each with the model name and that chunk as prompt |
| `EmbeddingCache.Store.Load` | RAG.py:36-42 | `load_embeddings` returns the record whenever one exists, even an empty list. It returns None (Python's `False`) only when no record exists. |
| `EmbeddingCache.Store.Save` | RAG.py:27-33 | `save_embeddings` writes or overwrites the record for the file name and no other |
| `EmbeddingCache.Store.GetEmbeddings` | RAG.py:44-55 | On a hit the stored list is returned verbatim, whatever the chunks and the model. No request is made and no record changes. On a miss the result has one vector per chunk, entry `i` is `embed(model, chunks[i])`, and the requests are the chunks in order. The store then maps the file name to the result and nothing else changes. |
| `EmbeddingCache.Store.GetEmbeddingsTwice` | RAG.py:44-55 | a second call with the same file name returns the first call's result, even for other chunks or another model, and adds no request |
| `Ranking.Above` | RAG.py:64 | Python's `>` on `(score, index)` tuples: a higher score, or an equal score and a larger index. This decides that ties put the larger index first. |
| `Ranking.AboveOrder` | RAG.py:64 | that comparison is a strict total order: irreflexive, asymmetric and transitive, and of two different entries one is above the other |
| `Ranking.Pairs` | RAG.py:64 | `zip(similarity_scores, range(len(haystack)))`: one pair per score, entry `k` holding score `k` and index `k`, so no two entries are equal |
| `Ranking.Insert` | RAG.py:64 | inserting into a descending list that does not contain the entry keeps the list descending and adds exactly that entry |
| `Ranking.Sort` | RAG.py:64 | the sort returns a permutation of its input, descending when the entries are distinct |
| `Ranking.Rank` | RAG.py:61-64 | the ranking has one entry per score, is a permutation of the `(score, index)` pairs, and is strictly descending in tuple order |
| `Ranking.FindMostSimilar` | RAG.py:59-64 | every entry carries a haystack index and the similarity computed for that haystack item; there is one entry per item, in descending order |
| `Ranking.RankEntries` | RAG.py:61-64 | each entry's index is below `n` and its score is the one computed for that index, every index occurs, and no index occurs twice |
| `Ranking.RankOrder` | RAG.py:64 | scores never increase along the ranking, and among equal scores the larger index comes first |
| `Ranking.SortedUnique` | RAG.py:64 | two descending sequences with the same entries are equal, so any correct `sorted` agrees with the model |
| `Ranking.RankIsTheSortedPairs` | RAG.py:64 | any descending arrangement of the `(score, index)` pairs is the ranking |
| `Ranking.RankTieExample` | RAG.py:64 | scores `[0.5, 0.5]` rank as index 1 then index 0 |
| `Context.Take` | RAG.py:81 | a slice `[:n]` keeps the first `min(n, len)` entries |
| `Context.Selected` | RAG.py:83 | the generator yields `paragraphs[index]` for each entry in ranking order. It fails (IndexError) if and only if some index is past the end. |
| `Context.BuildContext` | RAG.py:81-83 | The context is defined if and only if the first `min(5, n)` ranked indices are valid paragraph indices. It is empty for an empty ranking. Otherwise, when no paragraph holds a newline, it has exactly `min(5, n)` lines, and line `k` is the paragraph of ranking entry `k`. The `[:10]` slice is a no-op. |
| `Context.ContextDefinedWhenAligned` | RAG.py:81-83 | when there are as many scores as paragraphs, context assembly never fails |
| `Context.SegmentNoNewline` | RAG.py:16-24 | when no page line holds a newline, no paragraph does |
| `Context.Pipeline` | RAG.py:74-83 | segmenting, ranking with one score per paragraph and assembling the context always succeeds. A document without paragraphs gives the empty context. Otherwise the context's lines are the paragraphs of the top `min(5, n)` entries, best first. |

## Left out

- Streamlit UI and the `main` control flow (RAG.py:69-93): an interactive front end. Only the context join at lines 81-83 is modelled.
- PyPDF2 extraction and `splitlines` (RAG.py:11, 15-16): a foreign library. A document is given as its pages' lines.
- `ollama.embeddings` for the chunks (RAG.py:50) is the function `embed` given to the `Store` constructor. Network failures are not modelled.
- The query embedding (RAG.py:80) is left out: `FindMostSimilar` takes the needle as a parameter, and `Rank` takes the scores directly.
- `ollama.chat` (RAG.py:85-91) is left out entirely.
- Filesystem and JSON I/O (RAG.py:29-33, 38-42): directory creation, file paths and serialisation are not modelled. The store is a map. A cache file whose JSON content is literally `false` would read as a miss; a map of vector lists cannot hold that value.
- Cosine similarity (RAG.py:60-62): floating-point arithmetic. Scores are real numbers given as input. `FindMostSimilar` takes the similarity measure as a parameter. NaN scores (a zero norm), infinities and the error on mismatched dimensions inside `np.dot` are not modelled.
- `Ranking.Sort`: Python's `sorted` is Timsort, not insertion sort. `SortedUnique` shows both give the same result on the same entries.
- `Segmenter.ParseFile`: the inner loop over one page's lines is the separate method `ConsumeLines`, and that loop's body is the method `ConsumeLine`. They run the same statements in the same order on the same buffer and paragraph list.
- Concurrency, atomic writes and locking: RAG.py has none of them.
