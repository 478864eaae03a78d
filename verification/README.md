# Hacker News recommender — a Dafny model of its core

The Hacker News recommender ranks the current Hacker News top stories for a
reader. A reader with no likes gets the best-scored stories. A reader with
likes gets stories ranked by their similarity to the liked ones, and never a
liked story itself.

This project models the logic of `HackerNewsRecommender` (recommender.py)
that decides which ids come back and in what order. The parts it models are:

- **Tokenizer**: lower-case a title, split it on whitespace, and number each
  word from a growing vocabulary (`_tokenize_text`).
- **Sparse batch**: the jagged layout of the title-word ids (`_prepare_batch`).
  It is a flat `values` list plus one `lengths` entry and one
  `"title_words"` key per row.
- **Table sizing**: `get_article_embeddings` sizes the embedding table from
  the vocabulary, with at least 100 rows. The model also covers when that
  sizing happens relative to tokenizing.
- **Ranking** (`get_recommendations`):
  - the cold start: sort by score, then `head(top_n)`;
  - the warm path: drop liked ids, keep one entry per id in a dict, stably
    sort by descending similarity, then `[:top_n]`.

Modules, one file each:

| file | module | what it holds |
|---|---|---|
| `wrappers.dfy` | `Wrappers` | `Option` |
| `text.dfy` | `Text` | whitespace (Python's `str.isspace` set), `split()`, ASCII `lower()` |
| `vocabulary.dfy` | `Vocabulary` | the word-to-id map with its counter; `Lookup`, `Tokenize` |
| `jagged.dfy` | `Jagged` | flattening rows into `values` plus `lengths`, and back |
| `article.dfy` | `Articles` | an article row and its `id` and `title` columns |
| `batch.dfy` | `Batch` | `PrepareBatch`; table sizing; the session state |
| `sorting.dfy` | `Sorting` | stable descending insertion sort; Python/pandas prefix cut |
| `ranking.dfy` | `Ranking` | candidates, dict dedupe, cold start, warm path, `Recommend` |

Modelling choices:

- **Vocabulary:** a `map<string, nat>` plus the next id. Its invariant is
  `Valid`: ids run from 1 to `next - 1`, with no gaps and no repeats, and 0
  stays free for padding.
- **Tokenizing is pure:** it returns the new vocabulary with the ids instead
  of changing state.
- **Recommender state:** a `Session` holds the vocabulary and, once a model
  exists, the number of rows in its embedding table.
- **Similarity:** the cosine similarity to the mean liked embedding is an
  integer-valued parameter `sim` over article ids. Only its order matters
  for the ranking.
- **Stability:** stated as "for every key value `k`, the elements with key
  `k` keep their relative order" (`KeyClass`). `SortDescUnique` proves that
  being sorted plus keeping every key class determines the output uniquely.

Any non-empty `liked_ids` takes the warm path (line 96), even when no liked
id names an article. The warm path builds the model and tokenizes every
title, which the cold start never does (`Ranking.AbsentLikeBuildsModel`).
Its ranking differs too. Line 90 stores one shared vector for every
article, so when a liked id names an article every candidate is equally
similar. The warm path then returns candidates in row order rather than by
score (`Ranking.LikedRanksByRowOrder`). When no liked id names an article,
the program fails instead (see "Left out").

## Model

| member | source | states |
|---|---|---|
| `Text.Lower` | recommender.py:33 | lower-casing keeps the length and maps each character on its own |
| `Text.Word` | recommender.py:33 | the leading word is the longest whitespace-free prefix: it ends at the end of the text or just before a whitespace character |
| `Text.Split` | recommender.py:33 | `split()` yields no more pieces than the text has characters |
| `Text.SplitGivesWords` | recommender.py:33 | `split()` yields only non-empty, whitespace-free pieces, and yields none exactly when the text is all whitespace (the empty text included) |
| `Text.SplitJoin` | recommender.py:33 | splitting words joined by single spaces gives back exactly those words |
| `Text.SplitKeepsEveryLetter` | recommender.py:33 | the pieces, concatenated, are the text with its whitespace removed: no character is lost or added |
| `Text.SplitOfLower` | recommender.py:33 | lower-casing then splitting equals splitting then lower-casing each piece |
| `Text.SplitAtSpace` | recommender.py:33 | `split()` breaks at every whitespace character: the pieces of the text are the pieces before that character followed by the pieces after it |
| `Text.SplitOfWord` | recommender.py:33 | a non-empty, whitespace-free text splits into itself alone |
| `Vocabulary.WordsOf` | recommender.py:33 | `text.lower().split()` yields at most one word per character |
| `Vocabulary.EmptyIsValid` | recommender.py:15-16 | the starting vocabulary (no words, next id 1) meets the invariant |
| `Vocabulary.Lookup` | recommender.py:37-40 | the word is mapped to the returned id, and old entries are untouched; a known word changes nothing; an unknown word gets the current counter, and the counter moves up by one |
| `Vocabulary.LookupKeepsValid` | recommender.py:37-40 | a lookup keeps the invariant and returns an id in `[1, next)` |
| `Vocabulary.TokenizeWords` | recommender.py:36-41 | one id per word, and the counter never goes down |
| `Vocabulary.TokenizeWordsKeepsValid` | recommender.py:36-41 | tokenizing a word list keeps the invariant |
| `Vocabulary.TokenizeWordsGrows` | recommender.py:36-41 | old entries are kept; the new key set is the old one plus the words; every new id is at least the old counter |
| `Vocabulary.TokenizeWordsIds` | recommender.py:36-41 | each word ends up in the vocabulary, mapped to the id at its position |
| `Vocabulary.TokenizeWordsKnown` | recommender.py:36-41 | words that are all known already leave the vocabulary unchanged |
| `Vocabulary.Tokenize` | recommender.py:31-42 | one id per whitespace-separated word of the lower-cased text; the counter never goes down |
| `Vocabulary.TokenizeKeepsValid` | recommender.py:31-42 | the invariant is kept, and every id is in `[1, next)`, so never the padding id 0 |
| `Vocabulary.TokenizeBlank` | recommender.py:31-42 | a text yields no ids exactly when it is all whitespace, and such a text leaves the vocabulary as it was |
| `Vocabulary.TokenizeGrows` | recommender.py:31-42 | old entries are kept; the only new keys are the text's words; they are numbered from the old counter up |
| `Vocabulary.TokenizeSameWordSameId` | recommender.py:31-42 | two positions get the same id exactly when their words are equal after lower-casing |
| `Vocabulary.TokenizeTwice` | recommender.py:31-42 | tokenizing a text again returns the same ids and the same vocabulary (idempotence) |
| `Jagged.Lengths` | recommender.py:55 | one length per row, each equal to that row's size |
| `Jagged.ConcatLength` | recommender.py:54-55 | the flat values are exactly as long as the sum of the lengths |
| `Jagged.AppendRow` | recommender.py:51-55 | one more loop step appends the row's ids to `values` and its size to `lengths` |
| `Jagged.UnpackConcat` | recommender.py:57-61 | cutting the flat values by the lengths gives back the rows (round trip) |
| `Jagged.UnpackSound` | recommender.py:57-61 | whatever unpacks successfully is recovered by flattening again (the converse of the round trip) |
| `Jagged.Unpack` | recommender.py:57-61 | a successful unpack has one row per length, each exactly as long as its length |
| `Batch.EncodeLists` | recommender.py:51-55 | one row per title; the vocabulary threads through the rows in order and only grows |
| `Batch.EncodeListsKeepsValid` | recommender.py:51-55 | encoding all titles keeps the vocabulary invariant |
| `Batch.EncodeListsGrows` | recommender.py:51-55 | encoding only adds entries, and numbers them from the old counter up |
| `Batch.EncodeListsIds` | recommender.py:51-55 | row `i` has one id per word of title `i`, each equal to the final vocabulary's id for that word |
| `Batch.EncodeTitles` | recommender.py:51-52 | one row of ids per title, and the counter never goes down |
| `Batch.EncodeTitlesRows` | recommender.py:51-55 | every row's length is its title's word count; with a valid vocabulary every id is in `[1, next)` |
| `Batch.PrepareBatch` | recommender.py:44-61 | keys: one `title_words` per title. Lengths: each title's word count. `values` splits by `lengths` into the per-title id rows. The vocabulary comes back as the row-by-row tokenizing leaves it. Ids are valid and non-zero. |
| `Batch.TableSize` | recommender.py:75-77 | at least 100 rows, more rows than words, and exactly `words + 1` once that passes 100 |
| `Batch.TableCoversVocab` | recommender.py:75-77 | a table sized from a valid vocabulary has a row for each of its ids |
| `Batch.InitModel` | recommender.py:74-78 | a table is sized only when no model exists, and then to exactly `TableSize` of the vocabulary as it stands (`max(100, words + 1)`); an existing model is kept unchanged |
| `Batch.EmbedBatchAsWritten` | recommender.py:73-83 | as written: the table is whatever `InitModel` chose before the batch was tokenized |
| `Batch.AsWrittenFirstTableIs100` | recommender.py:74-78 | as written, the first call on a fresh recommender sizes a 100-row table, whatever the titles |
| `Batch.AsWrittenIdOutsideTable` | recommender.py:74-83 | as written: with 99 known words and a 100-row table (or one about to be sized), any new word in a title gets an id with no table row |
| `Batch.EmbedBatch` | recommender.py:73-83 | corrected order: at least 100 rows; an existing table is kept when it is already big enough for the new vocabulary |
| `Batch.EmbedBatchIdsInsideTable` | recommender.py:73-85 | corrected order: every id of the batch has a row in the table |
| `Sorting.InsertDesc` | recommender.py:122 | insertion adds exactly the one element (a permutation of the input plus it) |
| `Sorting.InsertDescSorted` | recommender.py:122 | inserting into a descending sequence keeps it descending |
| `Sorting.SortDesc` | recommender.py:122 | the result is a permutation of the input, in non-increasing key order |
| `Sorting.InsertDescClass` | recommender.py:122 | insertion places the new element before every element with the same key: first in its key class |
| `Sorting.SortDescStable` | recommender.py:122 | stability: elements with equal keys keep their input order |
| `Sorting.SortedByClassesUnique` | recommender.py:122 | two sorted sequences with the same equal-key runs are equal |
| `Sorting.SortDescUnique` | recommender.py:122 | any sorted rearrangement that keeps every equal-key run is the sort's result; a sorted and stable order is unique |
| `Sorting.Prefix` | recommender.py:122 | `[:n]` (and `head(n)`) is a prefix: it keeps `min(n, len)` elements for `n >= 0` and drops the last `-n` for `n < 0` |
| `Sorting.KeyClassOfPrefix` | recommender.py:122 | each equal-key run of a prefix is a prefix of that run in the whole |
| `Ranking.Dedupe` | recommender.py:111-119 | the dict's keys are exactly the candidate ids, with no repeats, and no more of them than candidates |
| `Ranking.DedupeKeepsFirstOrder` | recommender.py:111-119 | the dict lists its keys in the order each id first occurs |
| `Ranking.DedupeOfDistinct` | recommender.py:111-119 | ids that are already distinct come out unchanged |
| `Ranking.Candidates` | recommender.py:108 | filtering never adds rows |
| `Ranking.CandidatesOfOne` | recommender.py:108 | a single row is kept exactly when its id is not liked |
| `Ranking.CandidatesAppend` | recommender.py:108 | the filter distributes over joining runs of rows, so kept rows stay in row order with their multiplicity |
| `Ranking.CandidatesMembers` | recommender.py:108 | a row is a candidate exactly when it is one of the rows and its id is not liked |
| `Ranking.CandidatesKeepUniqueIds` | recommender.py:108 | filtering rows whose ids are unique keeps the ids unique |
| `Ranking.CutOfSorted` | recommender.py:98 | a leading cut of a sorted sequence is sorted and part of the whole; nothing left out ranks above anything kept |
| `Ranking.TopByScore` | recommender.py:98 | `head(top_n)` after the score sort keeps `min(n, rows)` rows for `n >= 0`, and never more than the rows |
| `Ranking.ColdStart` | recommender.py:98 | the cold start returns `min(n, rows)` ids for `n >= 0`, and never more than the rows |
| `Ranking.TopByScoreSpec` | recommender.py:96-98 | cold start: `min(n, rows)` rows kept (all but the last `-n` for negative `n`). They are in non-increasing score order and drawn from the input. No row left out scores above one kept. |
| `Ranking.PoolMembers` | recommender.py:108-119 | an id is ranked on the warm path exactly when some row has it and it is not liked |
| `Ranking.Pool` | recommender.py:108-119 | the dict never holds more ids than there are rows |
| `Ranking.WarmPath` | recommender.py:122 | `[:top_n]` keeps `min(n, pool)` ids for `n >= 0`, and never more than the pool |
| `Ranking.WarmPathExcludesLiked` | recommender.py:107-122 | the warm path returns no liked id, only ids of the given rows, and no id twice |
| `Ranking.WarmPathLength` | recommender.py:122 | the warm path returns `min(n, candidate ids)` ids for `n >= 0`, never more than the candidate ids, which are never more than the rows |
| `Ranking.WarmPathOrder` | recommender.py:122 | non-increasing similarity; each similarity value keeps a leading run of the pool's ids with that value, in row order |
| `Ranking.WarmPathTop` | recommender.py:122 | no candidate left out is more similar than one returned |
| `Ranking.Recommend` | recommender.py:94-123 | no likes leaves the state alone; likes leave a model behind, keeping an existing table as it was (lines 74-78), and the vocabulary only grows. Never a liked id; only ids of the given rows. At most `top_n` ids when `top_n >= 0`, and never more than the rows. |
| `Ranking.PoolOfUniqueIds` | recommender.py:108-119 | with unique article ids the dict keys are the candidate ids in row order |
| `Ranking.WarmPathUniformSimilarity` | recommender.py:88-122 | when every article gets the same similarity, as line 90's shared embedding gives, the warm path is the first `n` candidates in row order |
| `Ranking.ColdStartExample` | recommender.py:96-98 | scores 100, 50, 10 with no likes and `top_n = 2` give ids `[1, 2]` |
| `Ranking.ExamplePoolLiked1` | recommender.py:108-119 | liking article 1 of three leaves ids `[2, 3]` to rank |
| `Ranking.ExamplePoolAbsent` | recommender.py:108-119 | liking an id no article has leaves every id to rank |
| `Ranking.WarmExample` | recommender.py:107-122 | liking article 1 with `top_n = 1` returns exactly one id, 2 or 3, whatever the similarity |
| `Ranking.MixedPoolLiked1` | recommender.py:108-119 | on three rows listed out of score order, liking article 1 leaves ids `[2, 3]` to rank |
| `Ranking.MixedColdStart` | recommender.py:96-98 | on those rows (scores 50, 10, 100) with no likes and `top_n = 1`, the cold start returns `[3]` |
| `Ranking.LikedRanksByRowOrder` | recommender.py:88-122 | on those rows, liking article 1 with the equal similarities of line 90 returns `[2]` (row order), while no likes return `[3]` (score order) |
| `Ranking.AbsentLikeBuildsModel` | recommender.py:74-101 | from a fresh state, `liked = [999]` leaves a table sized from the empty vocabulary (100 rows), while no likes leave the state untouched |

## Left out

- The DLRM model, `torchrec`, the device choice, and the forward pass are
  left out. They are foreign numeric code; the model keeps only the number
  of table rows.
- The dense `score`/`time` float tensor of `_prepare_batch` is left out. No
  returned id depends on it.
- Cosine similarity, `np.mean` and `np.linalg.norm` are left out
  (floating point). Their result is the parameter `sim`, an integer
  similarity per article id.
- Ranking.Recommend: the error raised when no liked id names an article is
  left out. Then `np.mean` at line 104 averages an empty list, and every
  similarity becomes an array of NaN. With two or more candidates left, the
  sort at line 122 raises. The model has no error case there: it returns
  the warm-path list for whatever `sim` it is given.
- The embedding cache `article_embeddings` of the constructor is left out.
  It is never read.
- Line 114 is left out. The membership test `if article_id in all_embeddings` always
  holds, because `all_embeddings` has an entry for every article id.
- The `int32` conversion of `values` and `lengths` is left out. Ids are
  unbounded naturals, so wrap-around past 2^31 - 1 ids is not modelled.
- `KeyedJaggedTensor`'s own validation of keys against lengths is left out.
  It is foreign code.
- Ranking.TopByScoreSpec promises no order among equal scores.
  `sort_values` uses an unstable sort by default. The model uses the stable
  sort, but the contract leaves tie order open.
- Text.Lower maps only ASCII capitals. Python's `str.lower` also maps
  non-ASCII letters, and Unicode case mapping is not modelled.
- Ranking.Recommend takes `top_n` explicitly. Its default of 5 is left
  out.
- The other parts of the system are left out: feed.py (HTTP fetching of
  stories), api.py (the web API) and app.py (the user interface). They are
  I/O around the recommender.

## Findings

| source | as written | input that shows it | evidently intended | confidence | as-written member | corrected member |
|---|---|---|---|---|---|---|
| recommender.py:74-83 | The embedding table is sized from the vocabulary (lines 74-78) before `_prepare_batch` tokenizes the batch (line 83). An existing model is never resized. So the first call always builds 100 rows, and a word numbered 100 or later has no row. | One call whose titles hold 99 distinct words, then a call with a title holding a new word. The new word gets id 100, but the table has rows 0-99 only. | Every id handed to the embedding table has a row: tokenize first, then size (or grow) the table. | not executed | `Batch.AsWrittenIdOutsideTable` | `Batch.EmbedBatchIdsInsideTable` |

`Ranking.Recommend` runs the program as written (`Batch.EmbedBatchAsWritten`),
so its session carries the undersized table; `Batch.EmbedBatch` is the
corrected order, with `Batch.EmbedBatchIdsInsideTable` proved about it. The
returned ids are the same under either.
